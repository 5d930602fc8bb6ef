/** `InAnyAddr` of `include/stdplus/net/addr/ip.hpp`: an address of either family. */
module IpAny {
  import opened Text
  import opened NumericStr
  import opened Delimited
  import opened Ip4
  import opened Ip6Parse
  import opened Ip6Grammar
  import opened Ip6Print

  datatype InAnyAddr = V4(a4: In4Addr) | V6(a6: In6Addr) {
    ghost predicate Valid() {
      match this
      case V4(a) => a.Valid()
      case V6(a) => a.Valid()
    }
  }

  ghost function AnyOf(text: string): Result<InAnyAddr> {
    if Find(text, ':') < 0 then
      match In4Of(text)
      case Err(e) => Err(e)
      case Ok(a) => Ok(V4(a))
    else
      match In6Of(text)
      case Err(e) => Err(e)
      case Ok(a) => Ok(V6(a))
  }

  /** The printed text of an address. */
  ghost predicate AnyText(a: InAnyAddr, text: string)
    requires a.Valid()
  {
    match a
    case V4(a4) => text == In4Text(a4)
    case V6(a6) => Rfc5952(a6, text)
  }

  /** `FromStr<InAnyAddr>` */
  method AnyFromStr(text: string) returns (r: Result<InAnyAddr>)
    ensures r == AnyOf(text)
    ensures r.Ok? ==> r.value.Valid()
  {
    hide In4Of, In6Of;
    if Find(text, ':') < 0 {
      var a := In4FromStr(text);
      return if a.Err? then Err(a.error) else Ok(V4(a.value));
    }
    var a := In6FromStr(text);
    if a.Ok? { In6OfValid(text); }
    return if a.Err? then Err(a.error) else Ok(V6(a.value));
  }

  lemma In6OfValid(text: string)
    ensures In6Of(text).Ok? ==> In6Of(text).value.Valid()
  {
  }

  const ANY_BUF_SIZE: nat := if IN4_BUF_SIZE < IN6_BUF_SIZE then IN6_BUF_SIZE else IN4_BUF_SIZE

  /** `ToStr<InAnyAddr>` */
  method AnyToStr(buf: array<char>, at: nat, v: InAnyAddr) returns (end: nat)
    requires v.Valid() && at + ANY_BUF_SIZE <= buf.Length
    modifies buf
    ensures at <= end <= at + IN6_BUF_SIZE && AnyText(v, buf[at..end])
    ensures OnlyWithin(buf, at, at + ANY_BUF_SIZE)
  {
    hide Rfc5952, In4Text;
    match v {
      case V4(a) => end := In4ToStr(buf, at, a);
      case V6(a) => end := In6ToStr(buf, at, a);
    }
  }

  /** No character but hexadecimal digits, colons and dots occurs in an accepted IPv6 text. */
  lemma SpellsChars(f: Form, t: string, h: seq<Word16>, c: char)
    requires |h| == 8 && Spells(f, t, h) && DigitValue(c) < 0 && c != ':' && c != '.'
    ensures Without(t, c) && Find(t, ':') >= 0
  {
    hide QuadOf, Join, Denotes;
    match f
    case Whole(ps) =>
      PiecesWithout(ps, h, c);
      JoinColon(ps);
      JoinWithout(ps, c);
    case WholeQuad(ps, quad) =>
      PiecesWithout(ps, h[..6], c);
      QuadWithout(quad, h[6..], c);
      JoinColon(ps + [quad]);
      JoinWithout(ps + [quad], c);
    case Gap(ls, rs) =>
      PiecesWithout(ls, h[..|ls|], c);
      PiecesWithout(rs, h[8 - |rs|..], c);
      JoinWithout(ls, c);
      JoinWithout(rs, c);
      assert t[|Join(ls, ':')|] == ':';
    case GapQuad(ls, rs, quad) =>
      PiecesWithout(ls, h[..|ls|], c);
      PiecesWithout(rs, h[6 - |rs|..6], c);
      QuadWithout(quad, h[6..], c);
      JoinWithout(ls, c);
      JoinWithout(rs + [quad], c);
      assert t[|Join(ls, ':')|] == ':';
  }

  lemma JoinColon(ps: seq<string>)
    requires |ps| >= 2
    ensures Find(Join(ps, ':'), ':') >= 0 && Find(Join(ps, ':') + ":", ':') >= 0
  {
    hide Find;
    var s := Join(ps, ':');
    assert s[|ps[0]|] == ':' && (s + ":")[|ps[0]|] == ':';
  }

  lemma PiecesWithout(ps: seq<string>, vs: seq<Word16>, c: char)
    requires Hexes(ps, vs) && DigitValue(c) < 0
    ensures Free(ps, c)
  {
    forall i | 0 <= i < |ps| ensures Without(ps[i], c) {
      assert Denotes(ps[i], vs[i], 16, UINT16);
    }
  }

  lemma QuadWithout(q: string, h: seq<Word16>, c: char)
    requires QuadOf(q) == Ok(h) && DigitValue(c) < 0 && c != '.'
    ensures Without(q, c)
  {
    var a := In4Of(q).value;
    In4Exact(q, a);
    var ps := Split(q, '.');
    JoinSplit(q, '.');
    forall k | 0 <= k < |q|
      ensures q[k] != c
    {
      if q[k] != '.' {
        JoinChar(ps, '.', k);
        var i :| 0 <= i < |ps| && !Without(ps[i], q[k]);
        assert Denotes(ps[i], OctetsIn(a)[i], 10, UINT8);
        assert DigitValue(q[k]) >= 0;
      }
    }
  }

  /** A dotted quad alone is no IPv6 text, and a text with a colon is no IPv4 text. */
  lemma OtherFamilyRejects(t: string)
    ensures Find(t, ':') >= 0 ==> In4Of(t).Err?
    ensures Find(t, ':') < 0 ==> In6Of(t).Err?
  {
    hide Spells, HextetsIn;
    if Find(t, ':') < 0 && In6Of(t).Ok? {
      In6OfValid(t);
      var a := In6Of(t).value;
      In6Exact(t, a);
      var f :| Spells(f, DropLoneColon(t), HextetsIn(a));
      SpellsChars(f, DropLoneColon(t), HextetsIn(a), '/');
    }
    if Find(t, ':') >= 0 && In4Of(t).Ok? {
      QuadPiece(t, QuadHextets(In4Of(t).value));
    }
  }

  lemma In4OfValid(text: string)
    ensures In4Of(text).Ok? ==> In4Of(text).value.Valid()
  {
  }

  /** A text is accepted as an address of either family exactly when the parser of that family accepts it. */
  lemma AnyExact(text: string, a: InAnyAddr)
    ensures AnyOf(text) == Ok(a) <==>
      match a
      case V4(a4) => In4Of(text) == Ok(a4)
      case V6(a6) => In6Of(text) == Ok(a6)
  {
    hide In4Of, In6Of, Find;
    OtherFamilyRejects(text);
  }

  /** What a printed address looks like from outside. */
  lemma AnyTextChars(a: InAnyAddr, text: string, c: char)
    requires a.Valid() && AnyText(a, text) && DigitValue(c) < 0 && c != ':' && c != '.'
    ensures Without(text, c)
    ensures Find(text, ':') >= 0 <==> a.V6?
  {
    hide Rfc5952, In4Text, HextetsIn, Spells;
    match a
    case V4(a4) =>
      In4TextChars(a4, c);
      In4TextChars(a4, ':');
    case V6(a6) =>
      var f := CanonicalForm(a6, text);
      SpellsChars(f, text, HextetsIn(a6), c);
  }

  /** Parsing a printed address gives back the address and its family. */
  lemma AnyRoundTrip(a: InAnyAddr, text: string)
    requires a.Valid() && AnyText(a, text)
    ensures AnyOf(text) == Ok(a)
  {
    hide Rfc5952, In4Text, In4Of, In6Of;
    AnyTextChars(a, text, '/');
    match a
    case V4(a4) => In4RoundTrip(a4);
    case V6(a6) => In6RoundTrip(a6, text);
  }
}
