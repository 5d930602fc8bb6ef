/** The Ethernet address text of `include/stdplus/net/addr/ether.hpp`. */
module Ether {
  import opened Text
  import opened Bits
  import opened NumericStr
  import opened Endian
  import opened Delimited
  import opened Ip4

  datatype EtherAddr = EtherAddr(octets: seq<Byte>) {
    ghost predicate Valid() { |octets| == 6 }
  }

  /** The pieces of twelve digits taken in pairs. */
  function Pairs(text: string): (ps: seq<string>)
    requires |text| == 12
    ensures |ps| == 6
  {
    [text[..2], text[2..4], text[4..6], text[6..8], text[8..10], text[10..]]
  }

  /** What parsing means: twelve bare hexadecimal digits, or six hexadecimal octets between colons. */
  ghost function EtherOf(text: string): Result<EtherAddr> {
    if |text| == 12 && Find(text, ':') < 0 then
      match ParseAll(Pairs(text), 16, UINT8)
      case Err(e) => Err(e)
      case Ok(vs) => Uint8Max(); Ok(EtherAddr(vs))
    else
      match OctetsOf(text, ':', 6, 16)
      case Err(e) => Err(e)
      case Ok(vs) => Ok(EtherAddr(vs))
  }

  /** `FromStr<EtherAddr>` */
  method EtherFromStr(text: string) returns (r: Result<EtherAddr>)
    ensures r == EtherOf(text)
    ensures r.Ok? ==> r.value.Valid()
  {
    if |text| == 12 && Find(text, ':') < 0 {
      r := BareFromStr(text);
      return;
    }
    hide OctetsOf;
    var sv := text;
    var ret: seq<Byte> := [];
    ProgressStart(text, ':', 6, 16);
    for i := 0 to 5
      invariant |ret| == i && Progress(text, ':', 6, 16, ret, sv)
    {
      hide Progress, NextOf, PieceOf, IntOf, OctetsOf;
      var loc := Find(sv, ':');
      var v := StrToInt(16, UINT8, Before(sv, loc));
      NextOctet(sv, ':', 16, v);
      if v.Err? || After(sv, loc) == "" { ProgressStops(text, ':', 6, 16, ret, sv); }
      if v.Err? { return Err(v.error); }
      if After(sv, loc) != "" { ProgressStep(text, ':', 6, 16, ret, sv, v.value); }
      ret := ret + [v.value];
      sv := After(sv, loc);
      if sv == "" { return Err(Invalid); }
    }
    var v := StrToInt(16, UINT8, sv);
    ProgressEnd(text, ':', 6, 16, ret, sv, v);
    if v.Err? { return Err(v.error); }
    return Ok(EtherAddr(ret + [v.value]));
  }

  lemma NextOctet(sv: string, sep: char, base: nat, v: Result<int>)
    requires 1 <= base <= MAX_BASE && v == IntOf(Before(sv, Find(sv, sep)), base, UINT8)
    ensures v.Err? ==> NextOf(sv, sep, base) == Err(v.error)
    ensures v.Ok? ==> 0 <= v.value < 256 && NextOf(sv, sep, base) == Ok(v.value)
  {
    hide IntOf, PieceOf;
    OctetOf(Before(sv, Find(sv, sep)), base, v);
  }

  /** The loop over twelve bare digits. */
  method BareFromStr(text: string) returns (r: Result<EtherAddr>)
    requires |text| == 12 && Find(text, ':') < 0
    ensures r == EtherOf(text)
    ensures r.Ok? ==> r.value.Valid()
  {
    hide PieceOf, IntOf;
    var ret: seq<Byte> := [];
    ghost var ps := Pairs(text);
    PrependNone(ParseAll(ps, 16, UINT8));
    assert ps[0..] == ps;
    for i := 0 to 6
      invariant |ret| == i
      invariant ParseAll(ps, 16, UINT8) == Prepend(ret, ParseAll(ps[i..], 16, UINT8))
    {
      var p := text[i * 2..i * 2 + 2];
      var v := StrToInt(16, UINT8, p);
      assert ps[i] == p;
      OctetOf(p, 16, v);
      assert ps[i..][1..] == ps[i + 1..];
      if v.Err? { return Err(v.error); }
      PrependTwice(ret, [v.value], ParseAll(ps[i + 1..], 16, UINT8));
      ret := ret + [v.value];
    }
    assert ret + [] == ret;
    return Ok(EtherAddr(ret));
  }

  // ---------------------------------------------------------------- printing

  ghost function PairText(o: Byte): string {
    IntText(o, 16, 2)
  }

  ghost function PairTexts(os: seq<Byte>): (ps: seq<string>)
    ensures |ps| == |os|
  {
    seq(|os|, i requires 0 <= i < |os| => PairText(os[i]))
  }

  /** Six pairs of lower-case digits between colons. */
  ghost function EtherText(a: EtherAddr): string {
    Join(PairTexts(a.octets), ':')
  }

  lemma PairTextForm(o: Byte)
    ensures Denotes(PairText(o), o, 16, UINT8)
    ensures |PairText(o)| == 2 && IntScratch(o, 16, 2) == 2
    ensures UINT8.Holds(o) && Without(PairText(o), ':')
  {
    Uint8Max();
    QuotUnique(255, 16, 15, 15);
    QuotUnique(15, 16, 0, 15);
    assert |Digits(15, 16)| == |Digits(0, 16)| + 1;
    assert |Digits(255, 16)| == 2;
    DigitsMonotone(o, 255, 16);
    UintTextDenotes(o, 16, 2);
    DigitsChars(o, 16, ':');
  }

  const ETHER_BUF_SIZE: nat := 15 + 2

  /** Colons stand where they belong. */
  ghost predicate Colons(s: string, at: nat, end: nat) {
    end <= |s| && forall k | at <= k < end && (k - at) % 3 == 2 :: s[k] == ':'
  }

  /** The loop that writes the colons. */
  method WriteColons(buf: array<char>, at: nat)
    requires at + ETHER_BUF_SIZE <= buf.Length
    modifies buf
    ensures Colons(buf[..], at, at + ETHER_BUF_SIZE) && OnlyWithin(buf, at, at + ETHER_BUF_SIZE)
  {
    var ptr := at + 2;
    while ptr < at + ETHER_BUF_SIZE
      invariant at + 2 <= ptr <= at + ETHER_BUF_SIZE + 2 && (ptr - at) % 3 == 2
      invariant Colons(buf[..], at, if ptr < at + ETHER_BUF_SIZE then ptr else at + ETHER_BUF_SIZE)
      invariant OnlyWithin(buf, at, at + ETHER_BUF_SIZE)
    {
      buf[ptr] := ':';
      ptr := ptr + 3;
    }
  }

  /** `ToStr<EtherAddr>`: the colons first, then the digits between them. */
  method EtherToStr(buf: array<char>, at: nat, v: EtherAddr) returns (end: nat)
    requires v.Valid() && at + ETHER_BUF_SIZE <= buf.Length
    modifies buf
    ensures end == at + ETHER_BUF_SIZE && buf[at..end] == EtherText(v)
    ensures OnlyWithin(buf, at, at + ETHER_BUF_SIZE)
  {
    hide IntText, IntScratch;
    WriteColons(buf, at);
    var ptr := at;
    for i := 0 to 6
      invariant ptr == at + 3 * i
      invariant Colons(buf[..], at, at + ETHER_BUF_SIZE)
      invariant forall j | 0 <= j < i :: PairAt(buf[..], at + 3 * j, v.octets[j])
      invariant OnlyWithin(buf, at, at + ETHER_BUF_SIZE)
    {
      PairTextForm(v.octets[i]);
      ghost var was := buf[..];
      var _ := IntToStr(16, UINT8, buf, ptr, v.octets[i], 2);
      PairWritten(was, buf[..], at, ptr, i, v);
      ptr := ptr + 3;
    }
    end := at + ETHER_BUF_SIZE;
    PairsMakeText(v, buf[at..end], buf[..], at);
  }

  lemma PairWritten(was: string, s: string, at: nat, ptr: nat, i: nat, v: EtherAddr)
    requires v.Valid() && i < 6 && ptr == at + 3 * i
    requires |was| == |s| && at + ETHER_BUF_SIZE <= |s|
    requires s[ptr..ptr + 2] == PairText(v.octets[i])
    requires forall k | 0 <= k < |s| && !(ptr <= k < ptr + 2) :: s[k] == was[k]
    requires Colons(was, at, at + ETHER_BUF_SIZE)
    requires forall j | 0 <= j < i :: PairAt(was, at + 3 * j, v.octets[j])
    ensures Colons(s, at, at + ETHER_BUF_SIZE)
    ensures forall j | 0 <= j <= i :: PairAt(s, at + 3 * j, v.octets[j])
  {
    hide PairText;
    forall j | 0 <= j < i
      ensures PairAt(s, at + 3 * j, v.octets[j])
    {
      assert PairAt(was, at + 3 * j, v.octets[j]);
      assert s[at + 3 * j..at + 3 * j + 2] == was[at + 3 * j..at + 3 * j + 2];
    }
  }

  ghost predicate PairAt(s: string, k: int, o: Byte) {
    0 <= k && k + 2 <= |s| && s[k..k + 2] == PairText(o)
  }

  lemma PairsMakeText(v: EtherAddr, text: string, s: string, at: nat)
    requires v.Valid() && at + ETHER_BUF_SIZE <= |s| && text == s[at..at + ETHER_BUF_SIZE]
    requires Colons(s, at, at + ETHER_BUF_SIZE)
    requires forall j | 0 <= j < 6 :: PairAt(s, at + 3 * j, v.octets[j])
    ensures text == EtherText(v)
  {
    hide Join, PairText;
    var ps := PairTexts(v.octets);
    SixJoined(ps);
    forall j | 0 <= j < 6
      ensures text[3 * j..3 * j + 2] == ps[j]
    {
      assert PairAt(s, at + 3 * j, v.octets[j]);
    }
    assert text == text[0..2] + [text[2]] + (text[3..5] + [text[5]] + (text[6..8] + [text[8]] + (text[9..11] + [text[11]]
                 + (text[12..14] + [text[14]] + text[15..17]))));
  }

  lemma SixJoined(ps: seq<string>)
    requires |ps| == 6
    ensures Join(ps, ':') == ps[0] + ":" + (ps[1] + ":" + (ps[2] + ":" + (ps[3] + ":" + (ps[4] + ":" + ps[5]))))
  {
    assert ps[1..][1..] == ps[2..] && ps[2..][1..] == ps[3..] && ps[3..][1..] == ps[4..] && ps[4..][1..] == ps[5..];
    assert Join(ps[5..], ':') == ps[5];
    assert Join(ps[4..], ':') == ps[4] + ":" + Join(ps[5..], ':');
    assert Join(ps[3..], ':') == ps[3] + ":" + Join(ps[4..], ':');
    assert Join(ps[2..], ':') == ps[2] + ":" + Join(ps[3..], ':');
    assert Join(ps[1..], ':') == ps[1] + ":" + Join(ps[2..], ':');
  }

  // ---------------------------------------------------------------- what the parser accepts

  /** A text is accepted exactly when it is twelve characters of which every two from the left, or six
      colon-separated parts of which every one, is a hexadecimal octet. */
  lemma EtherExact(text: string, a: EtherAddr)
    requires a.Valid()
    ensures EtherOf(text) == Ok(a) <==>
              if |text| == 12 && Find(text, ':') < 0
              then forall i | 0 <= i < 6 :: Denotes(text[2 * i..2 * i + 2], a.octets[i], 16, UINT8)
              else |Split(text, ':')| == 6 && AllDenote(Split(text, ':'), a.octets, 16, UINT8)
  {
    hide PieceOf, SplitN, Split, Denotes, Pairs;
    if |text| == 12 && Find(text, ':') < 0 {
      ParseAllDenotes(Pairs(text), a.octets, 16, UINT8);
      PairsAt(text);
    } else {
      OctetsExact(text, ':', 6, 16, a.octets);
    }
  }

  lemma PairsAt(text: string)
    requires |text| == 12
    ensures forall i | 0 <= i < 6 :: Pairs(text)[i] == text[2 * i..2 * i + 2]
  {
    var ps := Pairs(text);
    assert ps[0] == text[0..2] && ps[1] == text[2..4] && ps[2] == text[4..6];
    assert ps[3] == text[6..8] && ps[4] == text[8..10] && ps[5] == text[10..12];
    forall i | 0 <= i < 6 ensures ps[i] == text[2 * i..2 * i + 2] {
      assert i == 0 || i == 1 || i == 2 || i == 3 || i == 4 || i == 5;
    }
  }

  /** The six pairs written without colons are read as well. */
  lemma BareRoundTrip(a: EtherAddr)
    requires a.Valid()
    ensures var ps := PairTexts(a.octets); EtherOf(ps[0] + ps[1] + ps[2] + ps[3] + ps[4] + ps[5]) == Ok(a)
  {
    hide IntText, Denotes, EtherOf, PairText;
    var ps := PairTexts(a.octets);
    forall i | 0 <= i < 6
      ensures Denotes(ps[i], a.octets[i], 16, UINT8) && |ps[i]| == 2 && Without(ps[i], ':')
    {
      PairTextForm(a.octets[i]);
      NoColon(ps[i], a.octets[i]);
    }
    var text := ps[0] + ps[1] + ps[2] + ps[3] + ps[4] + ps[5];
    assert text[0..2] == ps[0] && text[2..4] == ps[1] && text[4..6] == ps[2];
    assert text[6..8] == ps[3] && text[8..10] == ps[4] && text[10..12] == ps[5];
    assert Without(text, ':');
    forall i | 0 <= i < 6
      ensures Denotes(text[2 * i..2 * i + 2], a.octets[i], 16, UINT8)
    {
      assert i == 0 || i == 1 || i == 2 || i == 3 || i == 4 || i == 5;
    }
    EtherExact(text, a);
  }

  lemma NoColon(p: string, v: nat)
    requires Denotes(p, v, 16, UINT8)
    ensures Without(p, ':')
  {
  }

  lemma EtherRoundTrip(a: EtherAddr)
    requires a.Valid()
    ensures EtherOf(EtherText(a)) == Ok(a)
  {
    hide IntText, Denotes, OctetsOf;
    var ps := PairTexts(a.octets);
    forall i | 0 <= i < 6
      ensures Denotes(ps[i], a.octets[i], 16, UINT8) && |ps[i]| == 2
    {
      PairTextForm(a.octets[i]);
    }
    SixJoined(ps);
    OctetsRoundTrip(ps, a.octets, ':', 16);
  }
}
