/** The socket address texts of `include/stdplus/net/addr/sock.hpp`. */
module Sock {
  import opened Text
  import opened Bits
  import opened NumericStr
  import opened Delimited
  import opened Ip4
  import opened Ip6Parse
  import opened Ip6Print
  import opened IpAny

  datatype Sock4Addr = Sock4Addr(addr: In4Addr, port: nat) {
    ghost predicate Valid() { addr.Valid() && port <= 0xffff }
  }

  datatype Sock6Addr = Sock6Addr(addr: In6Addr, port: nat, scope: nat) {
    ghost predicate Valid() { addr.Valid() && port <= 0xffff && scope <= 0xffff_ffff }
  }

  datatype SockInAddr = Sock4(s4: Sock4Addr) | Sock6(s6: Sock6Addr) {
    ghost predicate Valid() {
      match this
      case Sock4(s) => s.Valid()
      case Sock6(s) => s.Valid()
    }
  }

  // ---------------------------------------------------------------- texts

  /** A decimal number of an unsigned type behind the last separator. */
  ghost function NumberBehind(text: string, sep: char, t: IntType): (r: Result<nat>)
    requires RFind(text, sep) >= 0 && t.Valid() && !t.signed
    ensures r.Ok? ==> r.value <= t.MaxValue()
  {
    PieceOf(text[RFind(text, sep) + 1..], 10, t)
  }

  ghost predicate Sock4Text(s: Sock4Addr, text: string)
    requires s.Valid()
  {
    text == In4Text(s.addr) + ":" + IntText(s.port, 10, 0)
  }

  ghost predicate Sock6Text(s: Sock6Addr, text: string)
    requires s.Valid()
  {
    exists t :: Rfc5952(s.addr, t) && text == Bracketed(t, s.port)
  }

  ghost function Bracketed(t: string, port: nat): string {
    "[" + t + "]:" + IntText(port, 10, 0)
  }

  ghost predicate SockInText(s: SockInAddr, text: string)
    requires s.Valid()
  {
    match s
    case Sock4(s4) => Sock4Text(s4, text)
    case Sock6(s6) => Sock6Text(s6, text)
  }

  ghost function Sock4Of(text: string): Result<Sock4Addr> {
    var pos := RFind(text, ':');
    if pos < 0 then Err(Invalid)
    else
      match In4Of(text[..pos])
      case Err(e) => Err(e)
      case Ok(a) =>
        match NumberBehind(text, ':', UINT16)
        case Err(e) => Err(e)
        case Ok(p) => Ok(Sock4Addr(a, p))
  }

  ghost function Sock6Of(text: string): Result<Sock6Addr> {
    var pos := RFind(text, ':');
    if pos < 2 || text[0] != '[' || text[pos - 1] != ']' then Err(Invalid)
    else
      match In6Of(text[1..pos - 1])
      case Err(e) => Err(e)
      case Ok(a) =>
        match NumberBehind(text, ':', UINT16)
        case Err(e) => Err(e)
        case Ok(p) => Ok(Sock6Addr(a, p, 0))
  }

  ghost function SockInOf(text: string): Result<SockInAddr> {
    if StartsWith(text, '[') then
      match Sock6Of(text)
      case Err(e) => Err(e)
      case Ok(s) => Ok(Sock6(s))
    else
      match Sock4Of(text)
      case Err(e) => Err(e)
      case Ok(s) => Ok(Sock4(s))
  }

  // ---------------------------------------------------------------- parsers

  method ParseNumber(p: string, t: IntType) returns (r: Result<nat>)
    requires t.Valid() && !t.signed
    ensures r == PieceOf(p, 10, t)
  {
    var v := StrToInt(10, t, p);
    if v.Ok? { UnsignedDecode(p, 10, t, v.value); }
    r := if v.Err? then Err(v.error) else Ok(v.value);
  }

  /** `FromStr<Sock4Addr>` */
  method Sock4FromStr(sv: string) returns (r: Result<Sock4Addr>)
    ensures r == Sock4Of(sv)
  {
    hide In4Of, PieceOf;
    var pos := RFind(sv, ':');
    if pos < 0 {
      return Err(Invalid);
    }
    var a := In4FromStr(sv[..pos]);
    if a.Err? { return Err(a.error); }
    var p := ParseNumber(sv[pos + 1..], UINT16);
    if p.Err? { return Err(p.error); }
    return Ok(Sock4Addr(a.value, p.value));
  }

  /** `FromStr<Sock6Addr>` */
  method Sock6FromStr(sv: string) returns (r: Result<Sock6Addr>)
    ensures r == Sock6Of(sv)
  {
    hide In6Of, PieceOf;
    var pos := RFind(sv, ':');
    if pos < 0 {
      return Err(Invalid);
    }
    var v6seg := sv[..pos];
    if !(v6seg != "" && v6seg[0] == '[') || !(v6seg != "" && v6seg[|v6seg| - 1] == ']') {
      return Err(Invalid);
    }
    assert sv[1..pos - 1] == v6seg[1..|v6seg| - 1];
    var a := In6FromStr(v6seg[1..|v6seg| - 1]);
    if a.Err? { return Err(a.error); }
    var p := ParseNumber(sv[pos + 1..], UINT16);
    if p.Err? { return Err(p.error); }
    return Ok(Sock6Addr(a.value, p.value, 0));
  }

  /** `FromStr<SockInAddr>` */
  method SockInFromStr(sv: string) returns (r: Result<SockInAddr>)
    ensures r == SockInOf(sv)
  {
    hide Sock4Of, Sock6Of;
    if sv != "" && sv[0] == '[' {
      var s := Sock6FromStr(sv);
      return if s.Err? then Err(s.error) else Ok(Sock6(s.value));
    }
    var s := Sock4FromStr(sv);
    return if s.Err? then Err(s.error) else Ok(Sock4(s.value));
  }

  // ---------------------------------------------------------------- what the parsers accept

  lemma BehindLast(p: string, c: char, q: string)
    requires Without(q, c)
    ensures var text := p + [c] + q; RFind(text, c) == |p| && text[..|p|] == p && text[|p| + 1..] == q
  {
    var text := p + [c] + q;
    assert text[|p| + 1..] == q;
    RFindAt(text, c, |p|);
  }

  /** An address in front of the last colon and a decimal number behind it */
  ghost predicate Sock4Parts(text: string, s: Sock4Addr, t: string, q: string) {
    text == t + ":" + q && Without(q, ':') && In4Of(t) == Ok(s.addr) && Denotes(q, s.port, 10, UINT16)
  }

  lemma Sock4Exact(text: string, s: Sock4Addr)
    ensures Sock4Of(text) == Ok(s) <==> exists t, q :: Sock4Parts(text, s, t, q)
  {
    hide In4Of, PieceOf, Denotes;
    if Sock4Of(text) == Ok(s) {
      var pos := RFind(text, ':');
      var t, q := text[..pos], text[pos + 1..];
      PieceDenotes(q, s.port, 10, UINT16);
      assert text == t + ":" + q;
      assert Sock4Parts(text, s, t, q);
    }
    if exists t, q :: Sock4Parts(text, s, t, q) {
      var t, q :| Sock4Parts(text, s, t, q);
      BehindLast(t, ':', q);
      PieceDenotes(q, s.port, 10, UINT16);
    }
  }

  /** The same with the address in brackets, and without a scope */
  ghost predicate Sock6Parts(text: string, s: Sock6Addr, t: string, q: string) {
    && text == "[" + t + "]:" + q && Without(q, ':')
    && In6Of(t) == Ok(s.addr) && Denotes(q, s.port, 10, UINT16) && s.scope == 0
  }

  lemma Sock6Exact(text: string, s: Sock6Addr)
    ensures Sock6Of(text) == Ok(s) <==> exists t, q :: Sock6Parts(text, s, t, q)
  {
    hide Sock6Of, Sock6Parts;
    if Sock6Of(text) == Ok(s) { Sock6Apart(text, s); }
    if exists t, q :: Sock6Parts(text, s, t, q) {
      var t, q :| Sock6Parts(text, s, t, q);
      Sock6Joined(text, s, t, q);
    }
  }

  lemma Sock6Apart(text: string, s: Sock6Addr)
    requires Sock6Of(text) == Ok(s)
    ensures exists t, q :: Sock6Parts(text, s, t, q)
  {
    hide In6Of, PieceOf, Denotes;
    var pos := RFind(text, ':');
    var t, q := text[1..pos - 1], text[pos + 1..];
    PieceDenotes(q, s.port, 10, UINT16);
    assert text == "[" + t + "]:" + q;
    assert Sock6Parts(text, s, t, q);
  }

  lemma Sock6Joined(text: string, s: Sock6Addr, t: string, q: string)
    requires Sock6Parts(text, s, t, q)
    ensures Sock6Of(text) == Ok(s)
  {
    hide In6Of, PieceOf, Denotes;
    var seg := "[" + t + "]";
    assert text == seg + ":" + q;
    BehindLast(seg, ':', q);
    assert text[1..|seg| - 1] == t;
    PieceDenotes(q, s.port, 10, UINT16);
  }

  /** No IPv4 socket text starts with a bracket, so either parser decides for its own family. */
  lemma SockInExact(text: string, s: SockInAddr)
    ensures SockInOf(text) == Ok(s) <==>
      match s
      case Sock4(s4) => Sock4Of(text) == Ok(s4)
      case Sock6(s6) => Sock6Of(text) == Ok(s6)
  {
    hide Sock4Of, Sock6Of;
    Sock6Bracket(text);
    if Sock4Of(text).Ok? { Sock4NoBracket(text); }
  }

  lemma Sock6Bracket(text: string)
    ensures Sock6Of(text).Ok? ==> StartsWith(text, '[')
  {
  }

  lemma Sock4NoBracket(text: string)
    requires Sock4Of(text).Ok?
    ensures !StartsWith(text, '[')
  {
    hide In4Of, Denotes, Sock4Of, Split;
    var s := Sock4Of(text).value;
    Sock4Exact(text, s);
    var t, q :| Sock4Parts(text, s, t, q);
    In4OfValid(t);
    QuadWithout(t, QuadHextets(s.addr), '[');
    EmptyQuad();
  }

  lemma EmptyQuad()
    ensures In4Of("").Err?
  {
    if In4Of("").Ok? {
      In4Exact("", In4Of("").value);
    }
  }

  // ---------------------------------------------------------------- printers

  ghost function TenTo(k: nat): nat {
    if k == 0 then 1 else 10 * TenTo(k - 1)
  }

  lemma {:induction false} DecimalLength(v: nat, k: nat)
    ensures |Digits(v, 10)| > k <==> v >= TenTo(k)
  {
    if k > 0 && v > 0 {
      QuotRem(v, 10);
      DecimalLength(Quot(v, 10), k - 1);
    } else if k > 0 {
      TenToPositive(k);
    }
  }

  lemma {:induction false} TenToPositive(k: nat)
    ensures TenTo(k) >= 1
  {
    if k > 0 { TenToPositive(k - 1); }
  }

  /** The port printer lays down pairs of digits: what it may touch, and how long its text is. */
  lemma PortScratch(port: nat)
    requires port <= 0xffff
    ensures IntScratch(port, 10, 0) == if port < 100 then 2 else if port < 10000 then 4 else 6
    ensures |IntText(port, 10, 0)| <= IntScratch(port, 10, 0) && (|IntText(port, 10, 0)| == 5 <==> port >= 10000)
    ensures |IntText(port, 10, 0)| <= 5
  {
    assert TenTo(2) == 100 && TenTo(4) == 10000 && TenTo(5) == 100000;
    DecimalLength(port, 2);
    DecimalLength(port, 4);
    DecimalLength(port, 5);
    UintTextDenotes(port, 10, 0);
  }

  lemma PortText(port: nat)
    requires port <= 0xffff
    ensures var p := IntText(port, 10, 0);
            && Denotes(p, port, 10, UINT16) && 1 <= |p| <= 5 && Without(p, ':')
            && IntScratch(port, 10, 0) <= 6
            && UINT16.Valid() && UINT16.Holds(port) && 0 - port <= UINT16.Widened().MaxValue()
  {
    hide Digits, Chunked;
    Uint8Max();
    PortScratch(port);
    UintTextDenotes(port, 10, 0);
    DecimalChars(port, ':');
  }

  const SOCK4_BUF_SIZE: nat := IN4_BUF_SIZE + 1 + 6

  /** `ToStr<Sock4Addr>` */
  method Sock4ToStr(buf: array<char>, at: nat, v: Sock4Addr) returns (end: nat)
    requires v.Valid() && at + SOCK4_BUF_SIZE <= buf.Length
    modifies buf
    ensures at <= end <= at + SOCK4_BUF_SIZE && Sock4Text(v, buf[at..end])
    ensures OnlyWithin(buf, at, at + SOCK4_BUF_SIZE)
  {
    hide In4Text, IntText, IntScratch;
    PortText(v.port);
    end := In4ToStr(buf, at, v.addr);
    end := AppendChar(buf, at, end, ':');
    end := AppendInt(10, UINT16, buf, at, end, v.port, 0);
  }

  const SOCK6_BUF_SIZE: nat := IN6_BUF_SIZE + 1 + 6

  /** The brackets, the longest address, the colon and what a port of five digits touches */
  const SOCK6_REACH: nat := 1 + IN6_BUF_SIZE + 2 + 6

  /** No hextet has less than three digits, and at most one has three. */
  ghost predicate Long(h: seq<Word16>)
    requires |h| == 8
  {
    && (forall i | 0 <= i < 8 :: h[i] >= 0x100)
    && forall i, j | 0 <= i < j < 8 :: h[i] >= 0x1000 || h[j] >= 0x1000
  }

  /** The addresses that `ToStr<Sock6Addr>::buf_size` is too small for. */
  ghost predicate Overlong(s: Sock6Addr)
    requires s.Valid()
  {
    Long(HextetsIn(s.addr)) && s.port >= 10000
  }

  /** `buf_size`, where it is enough */
  ghost function Sock6Room(s: Sock6Addr): nat
    requires s.Valid()
  {
    if Overlong(s) then SOCK6_REACH else SOCK6_BUF_SIZE
  }

  lemma HexLength(v: Word16)
    ensures var n := |IntText(v, 16, 0)|; 1 <= n <= 4 && (n >= 3 <==> v >= 0x100) && (n == 4 <==> v >= 0x1000)
  {
    HexText(v);
    HexSteps();
    if v >= 0x1000 { DigitsMonotone(0x1000, v, 16); } else { DigitsMonotone(v, 0xfff, 16); }
    if v >= 0x100 { DigitsMonotone(0x100, v, 16); } else { DigitsMonotone(v, 0xff, 16); }
    UintTextDenotes(v, 16, 0);
  }

  lemma HexSteps()
    ensures |Digits(0xff, 16)| == 2 && |Digits(0x100, 16)| == 3 && |Digits(0xfff, 16)| == 3 && |Digits(0x1000, 16)| == 4
  {
    QuotUnique(0xfff, 16, 0xff, 15);
    QuotUnique(0x1000, 16, 0x100, 0);
    QuotUnique(0xff, 16, 15, 15);
    QuotUnique(0x100, 16, 16, 0);
    QuotUnique(16, 16, 1, 0);
    QuotUnique(15, 16, 0, 15);
    QuotUnique(1, 16, 0, 1);
    DigitsEmpty(0, 16);
    assert |Digits(1, 16)| == 1 && |Digits(15, 16)| == 1;
    assert |Digits(16, 16)| == 2;
  }

  ghost function Sum(ps: seq<string>): nat {
    if ps == [] then 0 else |ps[0]| + Sum(ps[1..])
  }

  lemma {:induction false} JoinSum(ps: seq<string>)
    requires ps != []
    ensures |Join(ps, ':')| == Sum(ps) + |ps| - 1
  {
    if |ps| > 1 { JoinSum(ps[1..]); }
  }

  lemma SumOfEight(ps: seq<string>)
    requires |ps| == 8
    ensures Sum(ps) == |ps[0]| + |ps[1]| + |ps[2]| + |ps[3]| + |ps[4]| + |ps[5]| + |ps[6]| + |ps[7]|
  {
    assert ps[1..][1..] == ps[2..] && ps[2..][1..] == ps[3..] && ps[3..][1..] == ps[4..] && ps[4..][1..] == ps[5..];
    assert ps[5..][1..] == ps[6..] && ps[6..][1..] == ps[7..] && ps[7..][1..] == [];
    assert Sum(ps[7..]) == |ps[7]| && Sum(ps[6..]) == |ps[6]| + Sum(ps[7..]);
    assert Sum(ps[5..]) == |ps[5]| + Sum(ps[6..]) && Sum(ps[4..]) == |ps[4]| + Sum(ps[5..]);
    assert Sum(ps[3..]) == |ps[3]| + Sum(ps[4..]) && Sum(ps[2..]) == |ps[2]| + Sum(ps[3..]);
    assert Sum(ps[1..]) == |ps[1]| + Sum(ps[2..]);
  }

  /** The full text of eight hextets takes 38 characters or more exactly for a long address. */
  lemma FullLength(h: seq<Word16>)
    requires |h| == 8
    ensures var n := |Join(HexTexts(h), ':')|;
      && (n >= 38 <==> Long(h))
      && (Long(h) ==> n == if forall i | 0 <= i < 8 :: h[i] >= 0x1000 then 39 else 38)
  {
    hide IntText, Join, Sum;
    forall i | 0 <= i < 8 { HexLength(h[i]); }
    var ps := HexTexts(h);
    JoinSum(ps);
    SumOfEight(ps);
    EightOfFour(|ps[0]|, |ps[1]|, |ps[2]|, |ps[3]|, |ps[4]|, |ps[5]|, |ps[6]|, |ps[7]|);
  }

  lemma EightOfFour(a: nat, b: nat, c: nat, d: nat, e: nat, f: nat, g: nat, h: nat)
    requires a <= 4 && b <= 4 && c <= 4 && d <= 4 && e <= 4 && f <= 4 && g <= 4 && h <= 4
    ensures a + b + c + d + e + f + g + h >= 31 <==> var s := [a, b, c, d, e, f, g, h];
      (forall i | 0 <= i < 8 :: s[i] >= 3) && (forall i, j | 0 <= i < j < 8 :: s[i] == 4 || s[j] == 4)
  {
    var s := [a, b, c, d, e, f, g, h];
    assert s[0] == a && s[1] == b && s[2] == c && s[3] == d && s[4] == e && s[5] == f && s[6] == g && s[7] == h;
  }

  /** A mapped or shortened text is shorter. */
  lemma LongText(a: In6Addr, t: string)
    requires a.Valid() && Rfc5952(a, t)
    ensures var h := HextetsIn(a);
      && |t| <= 39 && (|t| >= 38 <==> Long(h))
      && (Long(h) ==> |t| == if forall i | 0 <= i < 8 :: h[i] >= 0x1000 then 39 else 38)
  {
    hide In4Text, HextetsIn, HexTexts, Join;
    Rfc5952Length(a, t);
    var h := HextetsIn(a);
    if Mapped(h) {
      In4TextChars(In4Addr(a.Word(3)), ':');
    } else if st: nat, sz: nat :| Shortened(h, st, sz) {
      HexTextsLength(h[..st]);
      HexTextsLength(h[st + sz..]);
      assert t == GapText(h, st, sz) && h[st] == 0;
    } else {
      FullLength(h);
    }
  }

  /** All that printing touches lies inside `buf_size`, exactly unless the address is overlong. */
  lemma Sock6Fits(s: Sock6Addr, t: string)
    requires s.Valid() && Rfc5952(s.addr, t)
    ensures 1 + |t| + 2 + IntScratch(s.port, 10, 0) <= Sock6Room(s)
    ensures 1 + |t| + 2 + IntScratch(s.port, 10, 0) <= SOCK6_BUF_SIZE <==> !Overlong(s)
    ensures |Bracketed(t, s.port)| <= Sock6Room(s) && (Overlong(s) ==> |Bracketed(t, s.port)| >= SOCK6_BUF_SIZE)
  {
    hide Rfc5952, IntText, IntScratch, HextetsIn, Long;
    LongText(s.addr, t);
    PortScratch(s.port);
  }

  /** The text of this address and port is as long as the buffer, and one more character is touched. */
  lemma Sock6Overruns(t: string)
    requires Rfc5952(FromHextets([0xfff, 0x1111, 0x1111, 0x1111, 0x1111, 0x1111, 0x1111, 0x1111]), t)
    ensures |Bracketed(t, 10000)| == SOCK6_BUF_SIZE && 1 + |t| + 2 + IntScratch(10000, 10, 0) == SOCK6_BUF_SIZE + 1
  {
    hide Rfc5952, IntText, IntScratch, HextetsIn;
    var h: seq<Word16> := [0xfff, 0x1111, 0x1111, 0x1111, 0x1111, 0x1111, 0x1111, 0x1111];
    HextetsInverse(h, FromHextets(h));
    assert h[0] < 0x1000 && Long(h);
    LongText(FromHextets(h), t);
    PortScratch(10000);
  }

  /** The address in brackets and the colon behind it. */
  method BracketsToStr(buf: array<char>, at: nat, a: In6Addr) returns (end: nat, ghost t: string)
    requires a.Valid() && at + 1 + IN6_BUF_SIZE + 2 <= buf.Length
    modifies buf
    ensures end == at + 1 + |t| + 2 <= at + 1 + IN6_BUF_SIZE + 2
    ensures Rfc5952(a, t) && buf[at..end] == "[" + t + "]:"
    ensures OnlyWithin(buf, at, at + 1 + IN6_BUF_SIZE + 2)
  {
    hide Rfc5952;
    var p := AppendChar(buf, at, at, '[');
    assert buf[at] == '[';
    end := In6ToStr(buf, p, a);
    t := buf[p..end];
    assert buf[at] == '[' && buf[at..end] == [buf[at]] + buf[p..end];
    end := AppendChar(buf, at, end, ']');
    end := AppendChar(buf, at, end, ':');
  }

  /** `ToStr<Sock6Addr>`. For an overlong address the character behind the declared buffer is written, by
      the text or by a zero left over from the last pair of digits. */
  method Sock6ToStr(buf: array<char>, at: nat, v: Sock6Addr) returns (end: nat)
    requires v.Valid() && at + Sock6Room(v) <= buf.Length
    modifies buf
    ensures at <= end <= at + Sock6Room(v) && Sock6Text(v, buf[at..end])
    ensures OnlyWithin(buf, at, at + Sock6Room(v))
    ensures Overlong(v) ==> at + SOCK6_BUF_SIZE <= end && (end == at + SOCK6_BUF_SIZE ==> buf[end] == '0')
  {
    hide Rfc5952, IntText, IntScratch, Sock6Text, Overlong, IntType.Holds, IntType.MaxValue, IntType.Valid, IntType.Widened;
    PortText(v.port);
    ghost var t;
    end, t := BracketsToStr(buf, at, v.addr);
    ghost var front := buf[at..end];
    Sock6Fits(v, t);
    end := AppendInt(10, UINT16, buf, at, end, v.port, 0);
    BracketedIsText(v, t, front);
  }

  lemma BracketedIsText(s: Sock6Addr, t: string, front: string)
    requires s.Valid() && Rfc5952(s.addr, t) && front == "[" + t + "]:"
    ensures Sock6Text(s, front + IntText(s.port, 10, 0))
    ensures |Bracketed(t, s.port)| == |front + IntText(s.port, 10, 0)|
  {
    assert Bracketed(t, s.port) == front + IntText(s.port, 10, 0);
  }

  ghost function SockInRoom(s: SockInAddr): nat
    requires s.Valid()
  {
    if s.Sock6? then Sock6Room(s.s6) else SOCK6_BUF_SIZE
  }

  /** `ToStr<SockInAddr>` */
  method SockInToStr(buf: array<char>, at: nat, v: SockInAddr) returns (end: nat)
    requires v.Valid() && at + SockInRoom(v) <= buf.Length
    modifies buf
    ensures at <= end <= at + SockInRoom(v) && SockInText(v, buf[at..end])
    ensures OnlyWithin(buf, at, at + SockInRoom(v))
  {
    hide Sock4Text, Sock6Text, Overlong;
    match v {
      case Sock4(s) => end := Sock4ToStr(buf, at, s);
      case Sock6(s) => end := Sock6ToStr(buf, at, s);
    }
  }

  // ---------------------------------------------------------------- round trips

  lemma PortBehind(p: string, port: nat)
    requires port <= 0xffff
    ensures var text := p + ":" + IntText(port, 10, 0);
            && RFind(text, ':') == |p| && text[..|p|] == p
            && NumberBehind(text, ':', UINT16) == Ok(port)
  {
    hide IntText, Denotes, PieceOf, RFind;
    PortText(port);
    BehindLast(p, ':', IntText(port, 10, 0));
    PieceDenotes(IntText(port, 10, 0), port, 10, UINT16);
  }

  lemma Sock4RoundTrip(s: Sock4Addr, text: string)
    requires s.Valid() && Sock4Text(s, text)
    ensures Sock4Of(text) == Ok(s)
  {
    hide In4Text, In4Of, IntText, NumberBehind;
    In4RoundTrip(s.addr);
    PortBehind(In4Text(s.addr), s.port);
  }

  /** The scope is not part of the text: it comes back as zero. */
  lemma Sock6RoundTrip(s: Sock6Addr, text: string)
    requires s.Valid() && Sock6Text(s, text)
    ensures Sock6Of(text) == Ok(s.(scope := 0))
    ensures Sock6Of(text) == Ok(s) <==> s.scope == 0
  {
    hide Rfc5952, In6Of, IntText, NumberBehind;
    var t :| Rfc5952(s.addr, t) && text == Bracketed(t, s.port);
    In6RoundTrip(s.addr, t);
    var seg := "[" + t + "]";
    assert text == seg + ":" + IntText(s.port, 10, 0);
    PortBehind(seg, s.port);
    assert text[1..|seg| - 1] == t;
  }

  /** The bracket in front tells the families apart. */
  lemma SockInRoundTrip(s: SockInAddr, text: string)
    requires s.Valid() && SockInText(s, text)
    ensures SockInOf(text) == Ok(s) <==> s.Sock4? || s.s6.scope == 0
  {
    hide Sock4Of, Sock6Of, In4Text, Rfc5952, IntText;
    match s
    case Sock4(s4) =>
      Sock4RoundTrip(s4, text);
      In4TextChars(s4.addr, '[');
      assert text[0] == In4Text(s4.addr)[0];
    case Sock6(s6) =>
      Sock6RoundTrip(s6, text);
  }
}
