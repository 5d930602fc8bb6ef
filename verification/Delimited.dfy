/** Texts of a fixed number of delimited small integers: what the IPv4 and Ethernet parsers accept. */
module Delimited {
  import opened Text
  import opened Bits
  import opened NumericStr
  import opened Endian

  /** Decode pieces from the left until one fails. */
  ghost function ParseAll(ps: seq<string>, base: nat, t: IntType): (r: Result<seq<nat>>)
    requires 1 <= base <= MAX_BASE && t.Valid() && !t.signed
    ensures r.Ok? ==> |r.value| == |ps| && forall i | 0 <= i < |ps| :: r.value[i] <= t.MaxValue()
  {
    if ps == [] then Ok([])
    else
      match PieceOf(ps[0], base, t)
      case Err(e) => Err(e)
      case Ok(v) => Prepend([v], ParseAll(ps[1..], base, t))
  }

  /** One piece: an unsigned integer of the type. */
  ghost function PieceOf(p: string, base: nat, t: IntType): (r: Result<nat>)
    requires 1 <= base <= MAX_BASE && t.Valid() && !t.signed
    ensures r.Ok? ==> r.value <= t.MaxValue()
    ensures p == "" ==> r == Err(Invalid)
  {
    match IntOf(p, base, t)
    case Err(e) => assert p == "" ==> e == Invalid; Err(e)
    case Ok(v) => UnsignedDecode(p, base, t, v); Ok(v)
  }

  ghost function Prepend(vs: seq<nat>, r: Result<seq<nat>>): Result<seq<nat>> {
    if r.Err? then r else Ok(vs + r.value)
  }

  /** Exactly `n` pieces with a separator between them, each an octet in the base. */
  ghost function OctetsOf(text: string, sep: char, n: nat, base: nat): (r: Result<seq<Byte>>)
    requires n >= 1 && 1 <= base <= MAX_BASE
    ensures r.Ok? ==> |r.value| == n
  {
    match ParseAll(SplitN(text, sep, n), base, UINT8)
    case Err(e) => Err(e)
    case Ok(vs) => Uint8Max(); if |vs| == n then Ok(vs) else Err(Invalid)
  }

  /** `ps` are numerals that denote `vs`. */
  ghost predicate AllDenote(ps: seq<string>, vs: seq<nat>, base: nat, t: IntType)
    requires t.bits >= 1
  {
    |ps| == |vs| && forall i | 0 <= i < |ps| :: Denotes(ps[i], vs[i], base, t)
  }

  ghost predicate Denotes(p: string, v: nat, base: nat, t: IntType)
    requires t.bits >= 1
  {
    p != "" && IsNumeral(p, base) && Value(p, base) == v <= t.MaxValue()
  }

  lemma PieceDenotes(p: string, v: nat, base: nat, t: IntType)
    requires 1 <= base <= MAX_BASE && t.Valid() && !t.signed
    ensures PieceOf(p, base, t) == Ok(v) <==> Denotes(p, v, base, t)
  {
    UnsignedDecode(p, base, t, v);
  }

  /** Decoding in order succeeds exactly when every piece is a numeral that fits. */
  lemma {:induction false} ParseAllDenotes(ps: seq<string>, vs: seq<nat>, base: nat, t: IntType)
    requires 1 <= base <= MAX_BASE && t.Valid() && !t.signed
    ensures ParseAll(ps, base, t) == Ok(vs) <==> AllDenote(ps, vs, base, t)
  {
    if ps != [] {
      if vs != [] {
        PieceDenotes(ps[0], vs[0], base, t);
        ParseAllDenotes(ps[1..], vs[1..], base, t);
        assert vs == [vs[0]] + vs[1..];
        assert AllDenote(ps, vs, base, t) ==> AllDenote(ps[1..], vs[1..], base, t);
        assert Denotes(ps[0], vs[0], base, t) && AllDenote(ps[1..], vs[1..], base, t) ==> AllDenote(ps, vs, base, t) by {
          forall i | 1 <= i < |ps| && |ps| == |vs|
            ensures ps[i] == ps[1..][i - 1] && vs[i] == vs[1..][i - 1]
          {
          }
        }
      }
    }
  }

  /** A delimited text is accepted exactly when it splits into `n` octets: all of them present,
      none empty, each a numeral of the base that is at most 255. */
  lemma OctetsExact(text: string, sep: char, n: nat, base: nat, vs: seq<nat>)
    requires n >= 1 && 1 <= base <= MAX_BASE && DigitValue(sep) < 0
    ensures OctetsOf(text, sep, n, base) == Ok(vs) <==>
              |Split(text, sep)| == n && AllDenote(Split(text, sep), vs, base, UINT8)
  {
    SplitNIsSplit(text, sep, n);
    ParseAllDenotes(SplitN(text, sep, n), vs, base, UINT8);
  }

  /** Joined octet texts decode to the octets. */
  lemma OctetsRoundTrip(ps: seq<string>, vs: seq<nat>, sep: char, base: nat)
    requires |ps| >= 1 && 1 <= base <= MAX_BASE && DigitValue(sep) < 0
    requires AllDenote(ps, vs, base, UINT8)
    ensures OctetsOf(Join(ps, sep), sep, |ps|, base) == Ok(vs)
  {
    assert Free(ps, sep) by {
      forall i | 0 <= i < |ps| ensures Without(ps[i], sep) {
        assert Denotes(ps[i], vs[i], base, UINT8);
      }
    }
    SplitJoin(ps, sep);
    OctetsExact(Join(ps, sep), sep, |ps|, base, vs);
  }

  /** What is decoded behind the first separator, if there is one. */
  ghost function RestOf(sv: string, sep: char, n: nat, base: nat, t: IntType): Result<seq<nat>>
    requires n >= 1 && 1 <= base <= MAX_BASE && t.Valid() && !t.signed
  {
    var loc := Find(sv, sep);
    if loc < 0 then Ok([]) else ParseAll(SplitN(After(sv, loc), sep, n), base, t)
  }

  /** The first piece decides, or is followed by the rest. */
  lemma FirstPiece(sv: string, sep: char, n: nat, base: nat, t: IntType)
    requires n >= 2 && 1 <= base <= MAX_BASE && t.Valid() && !t.signed
    ensures ParseAll(SplitN(sv, sep, n), base, t)
         == match PieceOf(Before(sv, Find(sv, sep)), base, t)
            case Err(e) => Err(e)
            case Ok(v) => Prepend([v], RestOf(sv, sep, n - 1, base, t))
  {
    var loc := Find(sv, sep);
    if loc < 0 {
      assert [sv][1..] == [];
    } else {
      var tail := SplitN(After(sv, loc), sep, n - 1);
      assert ([sv[..loc]] + tail)[1..] == tail;
    }
  }

  lemma OnePiece(p: string, base: nat, t: IntType)
    requires 1 <= base <= MAX_BASE && t.Valid() && !t.signed
    ensures ParseAll([p], base, t) == match PieceOf(p, base, t) case Err(e) => Err(e) case Ok(v) => Ok([v])
  {
    var ps := [p];
    assert ps[0] == p && ps[1..] == [];
    assert ParseAll([], base, t) == Ok([]);
    if PieceOf(p, base, t).Ok? {
      var v := PieceOf(p, base, t).value;
      assert [v] + [] == [v];
      assert ParseAll(ps, base, t) == Prepend([v], Ok([]));
    }
  }

  lemma PrependNone(r: Result<seq<nat>>)
    ensures Prepend([], r) == r
  {
    if r.Ok? { assert [] + r.value == r.value; }
  }

  lemma PrependTwice(a: seq<nat>, b: seq<nat>, r: Result<seq<nat>>)
    ensures Prepend(a, Prepend(b, r)) == Prepend(a + b, r)
  {
    if r.Ok? { assert a + (b + r.value) == a + b + r.value; }
  }

  lemma Uint8Max()
    ensures UINT8.MaxValue() == 255 && UINT16.MaxValue() == 0xffff
  {
    assert Shl(1, 8) == 256;
    assert Shl(1, 16) == 0x1_0000;
  }

  /** A parser has decoded `os` and has `sv` left to decode. */
  ghost predicate Progress(text: string, sep: char, n: nat, base: nat, os: seq<Byte>, sv: string)
    requires 1 <= base <= MAX_BASE && |os| < n
  {
    ParseAll(SplitN(text, sep, n), base, UINT8) == Prepend(os, ParseAll(SplitN(sv, sep, n - |os|), base, UINT8))
  }

  lemma ProgressStart(text: string, sep: char, n: nat, base: nat)
    requires 1 <= base <= MAX_BASE && 0 < n
    ensures Progress(text, sep, n, base, [], text)
  {
    PrependNone(ParseAll(SplitN(text, sep, n), base, UINT8));
  }

  /** The piece that a parser with `sv` left decodes next. */
  ghost function NextOf(sv: string, sep: char, base: nat): Result<nat>
    requires 1 <= base <= MAX_BASE
  {
    PieceOf(Before(sv, Find(sv, sep)), base, UINT8)
  }

  lemma ProgressUnfold(text: string, sep: char, n: nat, base: nat, os: seq<Byte>, sv: string)
    requires 1 <= base <= MAX_BASE && |os| + 1 < n && Progress(text, sep, n, base, os, sv)
    ensures var whole, v := ParseAll(SplitN(text, sep, n), base, UINT8), NextOf(sv, sep, base);
            if v.Err? then whole == Err(v.error)
            else whole == Prepend(os + [v.value], RestOf(sv, sep, n - |os| - 1, base, UINT8))
  {
    FirstPiece(sv, sep, n - |os|, base, UINT8);
    var v := NextOf(sv, sep, base);
    if v.Ok? { PrependTwice(os, [v.value], RestOf(sv, sep, n - |os| - 1, base, UINT8)); }
  }

  /** The next piece is bad, or nothing is left behind it. */
  lemma ProgressStops(text: string, sep: char, n: nat, base: nat, os: seq<Byte>, sv: string)
    requires 1 <= base <= MAX_BASE && |os| + 1 < n && Progress(text, sep, n, base, os, sv)
    requires NextOf(sv, sep, base).Err? || After(sv, Find(sv, sep)) == ""
    ensures var v := NextOf(sv, sep, base);
            OctetsOf(text, sep, n, base) == Err(if v.Err? then v.error else Invalid)
  {
    ProgressUnfold(text, sep, n, base, os, sv);
    if NextOf(sv, sep, base).Ok? && Find(sv, sep) >= 0 {
      assert SplitN("", sep, n - |os| - 1) == [""];
      OnePiece("", base, UINT8);
    }
  }

  /** A good piece with more behind it. */
  lemma ProgressStep(text: string, sep: char, n: nat, base: nat, os: seq<Byte>, sv: string, v: Byte)
    requires 1 <= base <= MAX_BASE && |os| + 1 < n && Progress(text, sep, n, base, os, sv)
    requires NextOf(sv, sep, base) == Ok(v) && After(sv, Find(sv, sep)) != ""
    ensures Progress(text, sep, n, base, os + [v], After(sv, Find(sv, sep)))
  {
    var loc, k := Find(sv, sep), n - |os + [v]|;
    assert loc >= 0 && k == n - |os| - 1;
    ProgressUnfold(text, sep, n, base, os, sv);
    assert RestOf(sv, sep, k, base, UINT8) == ParseAll(SplitN(After(sv, loc), sep, k), base, UINT8);
  }

  lemma OctetOf(p: string, base: nat, v: Result<int>)
    requires 1 <= base <= MAX_BASE && v == IntOf(p, base, UINT8)
    ensures v.Err? ==> PieceOf(p, base, UINT8) == Err(v.error)
    ensures v.Ok? ==> 0 <= v.value < 256 && PieceOf(p, base, UINT8) == Ok(v.value)
  {
    Uint8Max();
    if v.Ok? { assert v.value == PieceOf(p, base, UINT8).value; }
  }

  /** Decoding the last piece. */
  lemma ProgressEnd(text: string, sep: char, n: nat, base: nat, os: seq<Byte>, sv: string, v: Result<int>)
    requires 1 <= base <= MAX_BASE && |os| + 1 == n
    requires Progress(text, sep, n, base, os, sv)
    requires v == IntOf(sv, base, UINT8)
    ensures v.Err? ==> OctetsOf(text, sep, n, base) == Err(v.error)
    ensures v.Ok? ==> 0 <= v.value < 256 && OctetsOf(text, sep, n, base) == Ok(os + [v.value])
  {
    OctetOf(sv, base, v);
    OnePiece(sv, base, UINT8);
  }
}
