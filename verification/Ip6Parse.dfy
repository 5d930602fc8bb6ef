/** The IPv6 address of `include/stdplus/net/addr/ip.hpp` and its parser. */
module Ip6Parse {
  import opened Text
  import opened NumericStr
  import opened Endian
  import opened Delimited
  import opened Ip4

  type Word16 = x: nat | x < 0x1_0000

  /** `In6Addr`: the eight 16-bit words as they lie in memory. */
  datatype In6Addr = In6Addr(s6: seq<Word16>) {
    ghost predicate Valid() { |s6| == 8 }

    /** `word(i)` */
    function Word(i: nat): (w: nat)
      requires Valid() && i < 4
      ensures w < WORD
    {
      Words(s6[2 * i], s6[2 * i + 1])
    }
  }

  function Words(lo: nat, hi: nat): nat {
    lo + 0x1_0000 * hi
  }

  /** The address with these hextets in the order they are written in. */
  function FromHextets(hs: seq<Word16>): (a: In6Addr)
    ensures |a.s6| == |hs|
  {
    In6Addr(seq(|hs|, i requires 0 <= i < |hs| => Swap16(hs[i])))
  }

  function HextetsIn(a: In6Addr): (hs: seq<Word16>)
    ensures |hs| == |a.s6|
  {
    seq(|a.s6|, i requires 0 <= i < |a.s6| => Swap16(a.s6[i]))
  }

  lemma HextetsInverse(hs: seq<Word16>, a: In6Addr)
    ensures HextetsIn(FromHextets(hs)) == hs && FromHextets(HextetsIn(a)) == a
  {
    forall i | 0 <= i < |hs| ensures Swap16(Swap16(hs[i])) == hs[i] { Swap16Involution(hs[i]); }
    forall i | 0 <= i < |a.s6| ensures Swap16(Swap16(a.s6[i])) == a.s6[i] { Swap16Involution(a.s6[i]); }
    assert HextetsIn(FromHextets(hs)) == hs;
    assert FromHextets(HextetsIn(a)).s6 == a.s6;
  }

  /** The high byte of a hextet lies in memory before the low one. */
  lemma HextetInMemory(a: In6Addr, i: nat, hi: Byte, lo: Byte)
    requires i < |a.s6| && a.s6[i] == Le16(hi, lo)
    ensures HextetsIn(a)[i] == 256 * hi + lo
  {
    Swap16Bytes(hi, lo);
  }

  // ---------------------------------------------------------------- what the parser computes

  /** One hextet: a hexadecimal number of 16 bits. */
  ghost function HextetOf(p: string): (r: Result<Word16>)
    ensures p == "" ==> r == Err(Invalid)
  {
    match PieceOf(p, 16, UINT16)
    case Err(e) => Err(e)
    case Ok(v) => Uint8Max(); Ok(v)
  }

  /** The two hextets an IPv4 address fills. */
  function QuadHextets(a: In4Addr): (hs: seq<Word16>)
    requires a.Valid()
    ensures |hs| == 2
  {
    var os := OctetsIn(a);
    [Le16(os[1], os[0]), Le16(os[3], os[2])]
  }

  ghost function QuadOf(p: string): (r: Result<seq<Word16>>)
    ensures r.Ok? ==> |r.value| == 2
  {
    match In4Of(p)
    case Err(e) => Err(e)
    case Ok(a) => Ok(QuadHextets(a))
  }

  /** Left part, zeros, right part. */
  ghost function Fill(l: seq<Word16>, r: seq<Word16>): (h: seq<Word16>)
    requires |l| + |r| <= 8
    ensures |h| == 8
  {
    l + seq(8 - |l| - |r|, _ => 0) + r
  }

  ghost predicate StartsWith(s: string, c: char) {
    s != "" && s[0] == c
  }

  /** `sv.substr(loc == npos ? 0 : loc + 1)` for the last `:`. */
  function LastPiece(s: string): string {
    s[RFind(s, ':') + 1..]
  }

  /** `sv.remove_suffix(loc == npos ? sv.size() : sv.size() - loc)` for the last `:`. */
  function DropLastPiece(s: string): (r: string)
    ensures s != "" ==> |r| < |s|
    ensures StartsWith(r, ':') ==> StartsWith(s, ':')
  {
    if RFind(s, ':') < 0 then "" else s[..RFind(s, ':')]
  }

  /** The parse from the right: at most `room` hextets, all of the text. */
  ghost function ScanBack(sv: string, room: nat): (r: Result<seq<Word16>>)
    ensures r.Ok? ==> |r.value| <= room
    decreases |sv|
  {
    if sv == "" then Ok([])
    else if room == 0 then Err(Invalid)
    else
      match HextetOf(LastPiece(sv))
      case Err(e) => Err(e)
      case Ok(v) =>
        match ScanBack(DropLastPiece(sv), room - 1)
        case Err(e) => Err(e)
        case Ok(vs) => Ok(vs + [v])
  }

  /** The whole address once the right part is known. */
  ghost function Complete(l: seq<Word16>, back: Result<seq<Word16>>, q: seq<Word16>): (r: Result<seq<Word16>>)
    requires |l| + |q| + (if back.Ok? then |back.value| else 0) <= 8
    ensures r.Ok? ==> |r.value| == 8
  {
    match back
    case Err(e) => Err(e)
    case Ok(vs) => Ok(Fill(l, vs + q))
  }

  /** Everything behind `::`, with the hextets in front of it known. */
  ghost function Tail(sv: string, l: seq<Word16>): (r: Result<seq<Word16>>)
    requires |l| < 8
    ensures r.Ok? ==> |r.value| == 8
  {
    if StartsWith(sv, ':') then Err(Invalid)
    else if sv != "" && |l| < 6 && Find(sv, '.') >= 0 then
      match QuadOf(LastPiece(sv))
      case Err(e) => Err(e)
      case Ok(q) => Complete(l, ScanBack(DropLastPiece(sv), 5 - |l|), q)
    else
      Complete(l, ScanBack(sv, 7 - |l|), [])
  }

  /** The parse from the left, with the hextets read so far. */
  ghost function Scan(sv: string, l: seq<Word16>): (r: Result<seq<Word16>>)
    requires |l| <= 8
    ensures r.Ok? ==> |r.value| == 8
    decreases |sv|
  {
    var loc := Find(sv, ':');
    if |l| == 8 then if sv == "" then Ok(l) else Err(Invalid)
    else if |l| == 6 && loc < 0 then
      match QuadOf(sv)
      case Err(e) => Err(e)
      case Ok(q) => Ok(l + q)
    else if sv == "" then Err(Invalid)
    else
      match if loc == 0 then Ok(l) else Extend(l, HextetOf(Before(sv, loc)))
      case Err(e) => Err(e)
      case Ok(l') =>
        if |l'| < 8 && |sv| > loc + 1 && sv[loc + 1] == ':' then Tail(sv[loc + 2..], l')
        else Scan(After(sv, loc), l')
  }

  ghost function Extend(l: seq<Word16>, v: Result<Word16>): (r: Result<seq<Word16>>)
    ensures r.Ok? ==> |r.value| == |l| + 1
  {
    match v
    case Err(e) => Err(e)
    case Ok(h) => Ok(l + [h])
  }

  /** What `FromStr<In6Addr>` returns. */
  ghost function In6Of(text: string): Result<In6Addr> {
    match Scan(text, [])
    case Err(e) => Err(e)
    case Ok(h) => Ok(FromHextets(h))
  }

  // ---------------------------------------------------------------- the parser

  method ParseHextet(p: string) returns (r: Result<Word16>)
    ensures r == HextetOf(p)
  {
    var v := StrToInt(16, UINT16, p);
    Uint8Max();
    assert PieceOf(p, 16, UINT16) == match v case Err(e) => Err(e) case Ok(n) => Ok(n);
    r := if v.Err? then Err(v.error) else Ok(v.value);
  }

  /** `ret` holds `l` from the left, `r` from the right and zeros between. */
  ghost predicate Holds(ret: seq<Word16>, l: seq<Word16>, r: seq<Word16>) {
    |l| + |r| <= 8 && In6Addr(ret) == FromHextets(Fill(l, r))
  }

  lemma HoldsLeft(ret: seq<Word16>, l: seq<Word16>, v: Word16)
    requires |l| < 8 && Holds(ret, l, [])
    ensures Holds(ret[|l| := Swap16(v)], l + [v], [])
  {
    assert ret[|l| := Swap16(v)] == FromHextets(Fill(l + [v], [])).s6;
  }

  lemma HoldsRight(ret: seq<Word16>, l: seq<Word16>, r: seq<Word16>, v: Word16)
    requires |l| + |r| < 8 && Holds(ret, l, r)
    ensures Holds(ret[7 - |r| := Swap16(v)], l, [v] + r)
  {
    assert ret[7 - |r| := Swap16(v)] == FromHextets(Fill(l, [v] + r)).s6;
  }

  /** `ret.word(3, w)` */
  function SetWord3(ret: seq<Word16>, w: nat): seq<Word16>
    requires |ret| == 8 && w < WORD
  {
    ret[6 := w % 0x1_0000][7 := w / 0x1_0000]
  }

  lemma HoldsQuad(ret: seq<Word16>, l: seq<Word16>, a: In4Addr)
    requires |l| <= 6 && a.Valid() && Holds(ret, l, [])
    ensures Holds(SetWord3(ret, a.word), l, QuadHextets(a))
    ensures |l| == 6 ==> Fill(l, QuadHextets(a)) == l + QuadHextets(a)
  {
    var os, q := OctetsIn(a), QuadHextets(a);
    Le32OfBytes(a.word);
    var lo, hi := Le16(os[0], os[1]), Le16(os[2], os[3]);
    assert a.word == lo + 0x1_0000 * hi;
    assert a.word % 0x1_0000 == lo && a.word / 0x1_0000 == hi;
    Swap16Bytes(os[1], os[0]);
    Swap16Bytes(os[3], os[2]);
    assert SetWord3(ret, a.word) == FromHextets(Fill(l, q)).s6;
  }

  /** `FromStr<In6Addr>` */
  method In6FromStr(text: string) returns (r: Result<In6Addr>)
    ensures r == In6Of(text)
  {
    hide HextetOf, QuadOf, Tail;
    var ret: seq<Word16> := [0, 0, 0, 0, 0, 0, 0, 0];
    var i := 0;
    var sv := text;
    ghost var l: seq<Word16> := [];
    assert ret == FromHextets(Fill([], [])).s6;
    while i < 8
      invariant i == |l| <= 8 && Holds(ret, l, [])
      invariant Scan(text, []) == Scan(sv, l)
      decreases |sv|, 8 - i
    {
      var loc := Find(sv, ':');
      if i == 6 && loc < 0 {
        var a := ParseQuad(sv);
        if a.Err? { return Err(a.error); }
        HoldsQuad(ret, l, a.value);
        return Ok(In6Addr(SetWord3(ret, a.value.word)));
      }
      if loc != 0 && sv != "" {
        var v := ParseHextet(Before(sv, loc));
        if v.Err? { return Err(v.error); }
        HoldsLeft(ret, l, v.value);
        ret := ret[i := Swap16(v.value)];
        i := i + 1;
        l := l + [v.value];
      }
      if i < 8 && |sv| > loc + 1 && sv[loc + 1] == ':' {
        sv := sv[loc + 2..];
        break;
      } else if sv == "" {
        return Err(Invalid);
      }
      sv := After(sv, loc);
    }
    r := In6TailFromStr(ret, i, sv, l);
  }

  lemma FillAll(l: seq<Word16>)
    requires |l| == 8
    ensures Fill(l, []) == l
  {
  }

  /** The parse from the right stops: on a bad piece, without room, or with nothing left. */
  lemma BackStops(l: seq<Word16>, sv: string, room: nat, done: seq<Word16>)
    requires |l| + room + |done| <= 8
    ensures var r := Complete(l, ScanBack(sv, room), done);
            && (sv == "" ==> r == Ok(Fill(l, done)))
            && (sv != "" && room == 0 ==> r == Err(Invalid))
            && (sv != "" && room > 0 && HextetOf(LastPiece(sv)).Err? ==> r == Err(HextetOf(LastPiece(sv)).error))
  {
    hide HextetOf;
    assert [] + done == done;
  }

  lemma BackStep(l: seq<Word16>, sv: string, room: nat, done: seq<Word16>, v: Word16)
    requires sv != "" && room > 0 && |l| + room + |done| <= 8 && HextetOf(LastPiece(sv)) == Ok(v)
    ensures Complete(l, ScanBack(sv, room), done) == Complete(l, ScanBack(DropLastPiece(sv), room - 1), [v] + done)
  {
    hide HextetOf;
    var rest := ScanBack(DropLastPiece(sv), room - 1);
    if rest.Ok? { assert (rest.value + [v]) + done == rest.value + ([v] + done); }
  }

  lemma TailWithQuad(sv: string, l: seq<Word16>)
    requires sv != "" && !StartsWith(sv, ':') && |l| < 6 && Find(sv, '.') >= 0
    ensures Tail(sv, l) == match QuadOf(LastPiece(sv))
                           case Err(e) => Err(e)
                           case Ok(q) => Complete(l, ScanBack(DropLastPiece(sv), 5 - |l|), q)
  {
  }

  lemma TailWithoutQuad(sv: string, l: seq<Word16>)
    requires |l| < 8 && !StartsWith(sv, ':') && !(sv != "" && |l| < 6 && Find(sv, '.') >= 0)
    ensures Tail(sv, l) == Complete(l, ScanBack(sv, 7 - |l|), [])
  {
  }

  lemma ScanFull(sv: string, l: seq<Word16>)
    requires |l| == 8
    ensures Scan(sv, l) == if sv == "" then Ok(l) else Err(Invalid)
  {
  }

  ghost function Addressed(h: Result<seq<Word16>>): Result<In6Addr> {
    match h
    case Err(e) => Err(e)
    case Ok(hs) => Ok(FromHextets(hs))
  }

  method ParseQuad(p: string) returns (r: Result<In4Addr>)
    ensures r.Ok? ==> r.value.Valid() && QuadOf(p) == Ok(QuadHextets(r.value))
    ensures r.Err? ==> QuadOf(p) == Err(r.error)
  {
    r := In4FromStr(p);
  }

  /** `FromStr<In6Addr>` from the check for an extra separator on. */
  method In6TailFromStr(start: seq<Word16>, i: nat, text: string, ghost l: seq<Word16>)
    returns (r: Result<In6Addr>)
    requires i == |l| <= 8 && Holds(start, l, [])
    ensures r == Addressed(if i < 8 then Tail(text, l) else Scan(text, l))
  {
    hide HextetOf, QuadOf, ScanBack;
    var ret: seq<Word16>, sv := start, text;
    if |sv| > 0 && sv[0] == ':' {
      if i == 8 { ScanFull(text, l); }
      return Err(Invalid);
    }
    var j := 7;
    if sv != "" && i < 6 && Find(sv, '.') >= 0 {
      TailWithQuad(sv, l);
      var a := ParseQuad(LastPiece(sv));
      if a.Err? { return Err(a.error); }
      HoldsQuad(ret, l, a.value);
      ret := SetWord3(ret, a.value.word);
      sv := DropLastPiece(sv);
      j := j - 2;
      ghost var q := QuadHextets(a.value);
      r := In6RightFromStr(ret, i, j, sv, l, q);
      assert Tail(text, l) == Complete(l, ScanBack(sv, j - i), q);
    } else {
      r := In6RightFromStr(ret, i, j, sv, l, []);
      if i < 8 {
        TailWithoutQuad(sv, l);
        assert Tail(text, l) == Complete(l, ScanBack(sv, j - i), []);
      } else {
        ScanFull(text, l);
      }
    }
  }

  /** The loop from the right and the check that it used up the text. */
  method In6RightFromStr(start: seq<Word16>, i: nat, last: nat, text: string, ghost l: seq<Word16>, ghost q: seq<Word16>)
    returns (r: Result<In6Addr>)
    requires i == |l| <= 8 && Holds(start, l, q) && last + |q| == 7
    requires i < 8 ==> i <= last
    ensures i < 8 ==> r == Addressed(Complete(l, ScanBack(text, last - i), q))
    ensures i == 8 ==> r == Addressed(if text == "" then Ok(l) else Err(Invalid))
  {
    hide HextetOf, ScanBack, Fill, FromHextets;
    var ret: seq<Word16>, sv, j := start, text, last;
    ghost var done := q;
    while sv != "" && j > i
      invariant i < 8 ==> j >= i && |done| == 7 - j && Holds(ret, l, done)
      invariant i == 8 ==> sv == text && ret == start && j == last
      invariant i < 8 ==> Complete(l, ScanBack(text, last - i), q) == Complete(l, ScanBack(sv, j - i), done)
      decreases |sv|
    {
      BackStops(l, sv, j - i, done);
      var v := ParseHextet(LastPiece(sv));
      if v.Err? { return Err(v.error); }
      HoldsRight(ret, l, done, v.value);
      BackStep(l, sv, j - i, done, v.value);
      ret := ret[j := Swap16(v.value)];
      j := j - 1;
      done := [v.value] + done;
      sv := DropLastPiece(sv);
    }
    if i < 8 { BackStops(l, sv, j - i, done); }
    if sv != "" { return Err(Invalid); }
    if i == 8 { FillAll(l); }
    return Ok(In6Addr(ret));
  }
}
