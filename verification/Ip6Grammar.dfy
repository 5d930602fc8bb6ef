/** The texts the IPv6 parser accepts, described without reference to how it reads them. */
module Ip6Grammar {
  import opened Text
  import opened NumericStr
  import opened Endian
  import opened Delimited
  import opened Ip4
  import opened Ip6Parse

  /** How an accepted text is put together: eight hextets, six and a dotted quad, or hextets on
      both sides of `::`, again with or without a dotted quad at the end. */
  datatype Form =
    | Whole(ps: seq<string>)
    | WholeQuad(ps: seq<string>, quad: string)
    | Gap(ls: seq<string>, rs: seq<string>)
    | GapQuad(ls: seq<string>, rs: seq<string>, quad: string)

  ghost predicate Hexes(ps: seq<string>, vs: seq<Word16>) {
    AllDenote(ps, vs, 16, UINT16)
  }

  /** The form spells the text, and its pieces fill the eight hextets without overlap: from the
      left, from the right, and a gap of at least one zero hextet where `::` stands. Eight hextets
      may be followed by one more colon. */
  ghost predicate Spells(f: Form, t: string, h: seq<Word16>)
    requires |h| == 8
  {
    match f
    case Whole(ps) =>
      Hexes(ps, h) && (t == Join(ps, ':') || t == Join(ps, ':') + ":")
    case WholeQuad(ps, quad) =>
      |ps| == 6 && Hexes(ps, h[..6]) && QuadOf(quad) == Ok(h[6..]) && t == Join(ps + [quad], ':')
    case Gap(ls, rs) =>
      && |ls| + |rs| <= 7 && t == Join(ls, ':') + "::" + Join(rs, ':')
      && Hexes(ls, h[..|ls|]) && Hexes(rs, h[8 - |rs|..])
      && ZeroBetween(h, |ls|, 8 - |rs|)
    case GapQuad(ls, rs, quad) =>
      && |ls| + |rs| <= 5 && t == Join(ls, ':') + "::" + Join(rs + [quad], ':')
      && Hexes(ls, h[..|ls|]) && Hexes(rs, h[6 - |rs|..6]) && QuadOf(quad) == Ok(h[6..])
      && ZeroBetween(h, |ls|, 6 - |rs|)
  }

  ghost predicate ZeroBetween(h: seq<Word16>, i: nat, j: nat)
    requires i <= j <= |h|
  {
    forall k | i <= k < j :: h[k] == 0
  }

  /** The parser skips one colon in front that is not the start of `::`. */
  function DropLoneColon(text: string): string {
    if |text| > 0 && text[0] == ':' && !(|text| > 1 && text[1] == ':') then text[1..] else text
  }

  // ---------------------------------------------------------------- pieces

  lemma HexPiece(p: string, v: Word16)
    ensures HextetOf(p) == Ok(v) <==> Denotes(p, v, 16, UINT16)
    ensures Denotes(p, v, 16, UINT16) ==> p != "" && Without(p, ':') && Without(p, '.')
  {
    PieceDenotes(p, v, 16, UINT16);
    Uint8Max();
  }

  lemma HexesFacts(ps: seq<string>, vs: seq<Word16>)
    requires Hexes(ps, vs)
    ensures Free(ps, ':') && Free(ps, '.') && forall i | 0 <= i < |ps| :: ps[i] != ""
  {
    forall i | 0 <= i < |ps|
      ensures Without(ps[i], ':') && Without(ps[i], '.') && ps[i] != ""
    {
      assert Denotes(ps[i], vs[i], 16, UINT16);
      HexPiece(ps[i], vs[i]);
    }
  }

  lemma HexesLength(ps: seq<string>, vs: seq<Word16>)
    ensures Hexes(ps, vs) ==> |ps| == |vs|
    ensures Hexes([], [])
  {
  }

  lemma HexesSnoc(ps: seq<string>, vs: seq<Word16>, p: string, v: Word16)
    requires Hexes(ps, vs) && HextetOf(p) == Ok(v)
    ensures Hexes(ps + [p], vs + [v])
  {
    hide Denotes, HextetOf;
    HexPiece(p, v);
  }

  lemma HexesSlice(ps: seq<string>, vs: seq<Word16>, i: nat, j: nat)
    requires Hexes(ps, vs) && i <= j <= |ps|
    ensures Hexes(ps[i..j], vs[i..j])
  {
    hide Denotes;
  }

  /** A dotted quad has dots and no colon. */
  lemma QuadPiece(q: string, h: seq<Word16>)
    requires QuadOf(q) == Ok(h)
    ensures Without(q, ':') && Find(q, '.') >= 0
  {
    var a := In4Of(q).value;
    assert a.Valid();
    In4Exact(q, a);
    var ps := Split(q, '.');
    JoinSplit(q, '.');
    forall k | 0 <= k < |q|
      ensures q[k] != ':'
    {
      if q[k] != '.' {
        JoinChar(ps, '.', k);
        var i :| 0 <= i < |ps| && !Without(ps[i], q[k]);
        assert Denotes(ps[i], OctetsIn(a)[i], 10, UINT8);
        assert DigitValue(q[k]) >= 0;
      }
    }
  }

  lemma {:induction false} JoinChar(ps: seq<string>, c: char, k: nat)
    requires k < |Join(ps, c)| && Join(ps, c)[k] != c
    ensures exists i :: 0 <= i < |ps| && !Without(ps[i], Join(ps, c)[k])
  {
    var s := Join(ps, c);
    if |ps| == 1 || k < |ps[0]| {
      assert ps[0][k] == s[k];
    } else {
      var m := k - |ps[0]| - 1;
      assert s[k] == Join(ps[1..], c)[m];
      JoinChar(ps[1..], c, m);
      var i :| 0 <= i < |ps[1..]| && !Without(ps[1..][i], s[k]);
      assert ps[1..][i] == ps[i + 1];
    }
  }

  // ---------------------------------------------------------------- accepted texts have a form

  lemma {:induction false} BackSound(sv: string, room: nat, vs: seq<Word16>) returns (rs: seq<string>)
    requires ScanBack(sv, room) == Ok(vs) && !StartsWith(sv, ':')
    ensures |rs| <= room && Hexes(rs, vs) && sv == Join(rs, ':')
    decreases |sv|
  {
    hide HextetOf, Denotes;
    if sv == "" { return []; }
    var p, front := LastPiece(sv), DropLastPiece(sv);
    var v, us := HextetOf(p).value, ScanBack(front, room - 1).value;
    rs := BackSound(front, room - 1, us);
    HexesSnoc(rs, us, p, v);
    HexesFacts(rs, us);
    JoinBack(rs, sv);
    rs := rs + [p];
  }

  lemma JoinNonEmpty(rs: seq<string>)
    requires forall i | 0 <= i < |rs| :: rs[i] != ""
    ensures Join(rs, ':') == "" ==> rs == []
  {
    if rs != [] { assert rs[0] != "" && |Join(rs, ':')| >= |rs[0]|; }
  }

  lemma JoinBack(rs: seq<string>, rest: string)
    requires rest != "" && !StartsWith(rest, ':') && DropLastPiece(rest) == Join(rs, ':')
    requires forall i | 0 <= i < |rs| :: rs[i] != ""
    ensures rest == Join(rs + [LastPiece(rest)], ':')
  {
    hide Join, RFind;
    var p, front := LastPiece(rest), DropLastPiece(rest);
    JoinNonEmpty(rs);
    JoinSnoc(rs, p);
    JoinNone(rest);
    if RFind(rest, ':') < 0 {
      assert p == rest;
    } else {
      assert front != "" && rest == front + ":" + p;
    }
  }

  lemma JoinSnoc(rs: seq<string>, p: string)
    ensures Join(rs + [p], ':') == if rs == [] then p else Join(rs, ':') + ":" + p
  {
    if rs == [] {
      assert rs + [p] == [p];
    } else {
      JoinAppend(rs, [p], ':');
    }
  }

  lemma FillParts(l: seq<Word16>, r: seq<Word16>, q: seq<Word16>)
    requires |l| + |r| + |q| <= 8
    ensures var h := Fill(l, r + q); var m := 8 - |q|;
            h[..|l|] == l && h[m - |r|..m] == r && h[m..] == q && ZeroBetween(h, |l|, m - |r|)
  {
  }

  lemma TailCases(rest: string, l: seq<Word16>)
    requires |l| < 8 && Tail(rest, l).Ok?
    ensures !StartsWith(rest, ':')
    ensures rest != "" && |l| < 6 && Find(rest, '.') >= 0 ==>
              var q, b := QuadOf(LastPiece(rest)), ScanBack(DropLastPiece(rest), 5 - |l|);
              q.Ok? && b.Ok? && Tail(rest, l) == Ok(Fill(l, b.value + q.value))
    ensures !(rest != "" && |l| < 6 && Find(rest, '.') >= 0) ==>
              var b := ScanBack(rest, 7 - |l|);
              b.Ok? && Tail(rest, l) == Ok(Fill(l, b.value + []))
  {
    hide QuadOf, ScanBack, Fill;
  }

  lemma TailSound(ls: seq<string>, l: seq<Word16>, rest: string, h: seq<Word16>) returns (f: Form)
    requires Hexes(ls, l) && |l| < 8 && Tail(rest, l) == Ok(h) && |h| == 8
    ensures Spells(f, Join(ls, ':') + "::" + rest, h)
  {
    hide HextetOf, Denotes, QuadOf, ScanBack, Fill, Join, AllDenote, LastPiece, DropLastPiece, Find, Tail;
    HexesLength(ls, l);
    TailCases(rest, l);
    if rest != "" && |l| < 6 && Find(rest, '.') >= 0 {
      var p, front := LastPiece(rest), DropLastPiece(rest);
      var q, vs := QuadOf(p).value, ScanBack(front, 5 - |l|).value;
      var rs := BackSound(front, 5 - |l|, vs);
      HexesLength(rs, vs);
      FillParts(l, vs, q);
      HexesFacts(rs, vs);
      JoinBack(rs, rest);
      f := GapQuad(ls, rs, p);
    } else {
      var vs := ScanBack(rest, 7 - |l|).value;
      var rs := BackSound(rest, 7 - |l|, vs);
      HexesLength(rs, vs);
      FillParts(l, vs, []);
      assert vs + [] == vs && h[8 - |rs|..8] == h[8 - |rs|..];
      f := Gap(ls, rs);
    }
  }

  /** Where the scan stands: `c` are the pieces in front of `sv`, each closed by a colon. */
  ghost predicate AtPiece(c: seq<string>, l: seq<Word16>, sv: string) {
    && |l| <= 8 && Hexes(c, l)
    && (StartsWith(sv, ':') ==> |l| == 8 || (c == [] && |sv| > 1 && sv[1] == ':'))
  }

  lemma JoinClosed(c: seq<string>, p: string)
    ensures Join(c + [p], ':') == Terminated(c, ':') + p
    ensures Terminated(c + [p], ':') == Join(c + [p], ':') + ":"
  {
    JoinTerminated(c, p, ':');
    TerminatedSnoc(c, p, ':');
  }

  /** From any stand of the scan, an accepted text has a form. */
  lemma {:induction false} ScanSound(c: seq<string>, l: seq<Word16>, sv: string, h: seq<Word16>) returns (f: Form)
    requires AtPiece(c, l, sv) && Scan(sv, l) == Ok(h) && |h| == 8
    ensures Spells(f, Terminated(c, ':') + sv, h)
    decreases |sv|
  {
    hide HextetOf, Denotes, QuadOf, Tail, Join, Terminated, AllDenote, Find;
    HexesLength(c, l);
    var loc := Find(sv, ':');
    if |l| == 8 {
      JoinClosed(c[..7], c[7]);
      assert c == c[..7] + [c[7]];
      assert Terminated(c, ':') + "" == Terminated(c, ':');
      f := Whole(c);
    } else if |l| == 6 && loc < 0 {
      var q := QuadOf(sv).value;
      JoinClosed(c, sv);
      assert (l + q)[..6] == l && (l + q)[6..] == q;
      f := WholeQuad(c, sv);
    } else if loc == 0 {
      f := TailSound([], [], sv[2..], h);
      assert sv == "::" + sv[2..];
      JoinNone(sv);
    } else {
      var p, rest := Before(sv, loc), After(sv, loc);
      var v := HextetOf(p).value;
      HexesSnoc(c, l, p, v);
      JoinClosed(c, p);
      if loc < 0 {
        ScanEmpty(l + [v]);
        f := Whole(c + [p]);
      } else if |l| + 1 < 8 && |sv| > loc + 1 && sv[loc + 1] == ':' {
        f := TailSound(c + [p], l + [v], sv[loc + 2..], h);
        assert Join(c + [p], ':') + "::" + sv[loc + 2..] == Terminated(c, ':') + sv;
      } else {
        f := ScanSound(c + [p], l + [v], rest, h);
        assert Terminated(c + [p], ':') + rest == Terminated(c, ':') + sv;
      }
    }
  }

  lemma JoinNone(sv: string)
    ensures Terminated([], ':') == Join([], ':') == "" && "" + sv == sv
  {
  }

  lemma ScanEmpty(l: seq<Word16>)
    requires |l| <= 8
    ensures |l| == 8 ==> Scan("", l) == Ok(l)
    ensures |l| < 8 ==> Scan("", l).Err?
  {
    hide HextetOf, In4Of;
    if |l| == 6 && In4Of("").Ok? {
      QuadPiece("", QuadOf("").value);
    }
  }

  // ---------------------------------------------------------------- texts with a form are accepted

  lemma ScanPiece(p: string, v: Word16, rest: string, l: seq<Word16>)
    requires HextetOf(p) == Ok(v) && |l| < 8 && (StartsWith(rest, ':') ==> |l| == 7)
    ensures Scan(p + ":" + rest, l) == Scan(rest, l + [v])
  {
    hide HextetOf, QuadOf, Tail;
    HexPiece(p, v);
    SplitCons(p, ':', rest);
    var sv := p + ":" + rest;
    assert sv[..|p|] == p && sv[|p| + 1..] == rest;
  }

  lemma ScanGap(p: string, v: Word16, rest: string, l: seq<Word16>)
    requires HextetOf(p) == Ok(v) && |l| < 7
    ensures Scan(p + "::" + rest, l) == Tail(rest, l + [v])
  {
    hide HextetOf, QuadOf, Tail;
    HexPiece(p, v);
    var sv := p + "::" + rest;
    assert sv == p + ":" + (":" + rest);
    SplitCons(p, ':', ":" + rest);
    assert sv[..|p|] == p && sv[|p| + 2..] == rest;
  }

  lemma {:induction false} ScanPieces(c: seq<string>, vs: seq<Word16>, sv: string, l: seq<Word16>)
    requires Hexes(c, vs) && |l| + |c| <= 8
    requires StartsWith(sv, ':') ==> |l| + |c| == 8
    ensures Scan(Terminated(c, ':') + sv, l) == Scan(sv, l + vs)
    decreases |c|
  {
    hide HextetOf, Denotes, Scan;
    if c == [] {
      assert l + vs == l && Terminated(c, ':') + sv == sv;
    } else {
      var rest := Terminated(c[1..], ':') + sv;
      HexesSlice(c, vs, 1, |c|);
      HexesFacts(c, vs);
      TerminatedCons(c[0], c[1..], ':');
      assert c == [c[0]] + c[1..] && vs == [vs[0]] + vs[1..];
      assert Terminated(c, ':') + sv == c[0] + ":" + rest;
      assert Denotes(c[0], vs[0], 16, UINT16);
      HexPiece(c[0], vs[0]);
      TerminatedStart(c[1..], sv);
      ScanPiece(c[0], vs[0], rest, l);
      ScanPieces(c[1..], vs[1..], sv, l + [vs[0]]);
      assert l + [vs[0]] + vs[1..] == l + vs;
    }
  }

  lemma TerminatedStart(c: seq<string>, sv: string)
    requires Free(c, ':') && forall i | 0 <= i < |c| :: c[i] != ""
    ensures StartsWith(Terminated(c, ':') + sv, ':') ==> c == [] && StartsWith(sv, ':')
  {
    hide Terminated;
    if c != [] {
      TerminatedCons(c[0], c[1..], ':');
      assert c == [c[0]] + c[1..];
    } else {
      JoinNone(sv);
    }
  }

  lemma JoinLast(rs: seq<string>, p: string)
    requires Without(p, ':')
    ensures LastPiece(Join(rs + [p], ':')) == p && DropLastPiece(Join(rs + [p], ':')) == Join(rs, ':')
  {
    hide Join;
    JoinSnoc(rs, p);
    if rs == [] {
      JoinNone(p);
    } else {
      var s := Join(rs, ':') + ":" + p;
      assert s[|Join(rs, ':')| + 1..] == p && s[..|Join(rs, ':')|] == Join(rs, ':');
      RFindAt(s, ':', |Join(rs, ':')|);
    }
  }

  lemma {:induction false} BackComplete(rs: seq<string>, vs: seq<Word16>, room: nat)
    requires Hexes(rs, vs) && |rs| <= room
    ensures ScanBack(Join(rs, ':'), room) == Ok(vs)
  {
    hide HextetOf, Denotes, Join;
    HexesFacts(rs, vs);
    JoinNonEmpty(rs);
    if rs == [] {
      JoinNone("");
    } else {
      var n := |rs| - 1;
      assert rs == rs[..n] + [rs[n]] && vs == vs[..n] + [vs[n]];
      HexesSlice(rs, vs, 0, n);
      assert Denotes(rs[n], vs[n], 16, UINT16);
      HexPiece(rs[n], vs[n]);
      JoinLast(rs[..n], rs[n]);
      BackComplete(rs[..n], vs[..n], room - 1);
    }
  }

  lemma JoinStart(rs: seq<string>)
    requires Free(rs, ':') && forall i | 0 <= i < |rs| :: rs[i] != ""
    ensures !StartsWith(Join(rs, ':'), ':')
  {
    if rs != [] { assert rs[0] != "" && Join(rs, ':')[0] == rs[0][0]; }
  }

  lemma JoinWithout(rs: seq<string>, c: char)
    requires Free(rs, c) && c != ':'
    ensures Find(Join(rs, ':'), c) < 0
  {
    var k := Find(Join(rs, ':'), c);
    if k >= 0 { JoinChar(rs, ':', k); }
  }

  lemma TailComplete(rs: seq<string>, vs: seq<Word16>, l: seq<Word16>)
    requires Hexes(rs, vs) && |l| + |rs| <= 7
    ensures Tail(Join(rs, ':'), l) == Ok(Fill(l, vs))
  {
    hide HextetOf, QuadOf, Denotes, Join;
    hide Tail, AllDenote, ScanBack, LastPiece, DropLastPiece, Find, Fill;
    HexesLength(rs, vs);
    HexesFacts(rs, vs);
    JoinStart(rs);
    JoinWithout(rs, '.');
    BackComplete(rs, vs, 7 - |l|);
    assert vs + [] == vs;
    TailWithoutQuad(Join(rs, ':'), l);
  }

  lemma JoinWithQuad(rs: seq<string>, quad: string)
    requires Free(rs, ':') && forall i | 0 <= i < |rs| :: rs[i] != ""
    requires Without(quad, ':') && Find(quad, '.') >= 0
    ensures var t := Join(rs + [quad], ':');
            && t != "" && !StartsWith(t, ':') && Find(t, '.') >= 0
            && LastPiece(t) == quad && DropLastPiece(t) == Join(rs, ':')
  {
    hide Join, Find, RFind, DropLastPiece, LastPiece;
    var ps := rs + [quad];
    assert ps[|rs|] == quad && quad != "";
    JoinNonEmpty(ps);
    JoinStart(ps);
    JoinLast(rs, quad);
    DotInLast(Join(ps, ':'), quad);
  }

  lemma DotInLast(t: string, quad: string)
    requires LastPiece(t) == quad && Find(quad, '.') >= 0
    ensures Find(t, '.') >= 0
  {
    hide Find, RFind;
    var k := Find(quad, '.');
    assert t[RFind(t, ':') + 1 + k] == LastPiece(t)[k];
  }

  lemma TailQuadComplete(rs: seq<string>, vs: seq<Word16>, quad: string, q: seq<Word16>, l: seq<Word16>)
    requires Hexes(rs, vs) && |l| + |rs| <= 5 && QuadOf(quad) == Ok(q)
    ensures Tail(Join(rs + [quad], ':'), l) == Ok(Fill(l, vs + q))
  {
    hide HextetOf, QuadOf, Denotes, Join, Fill, Tail, AllDenote, ScanBack, LastPiece, DropLastPiece, Find;
    HexesLength(rs, vs);
    var t := Join(rs + [quad], ':');
    HexesFacts(rs, vs);
    QuadPiece(quad, q);
    JoinWithQuad(rs, quad);
    BackComplete(rs, vs, 5 - |l|);
    TailWithQuad(t, l);
  }

  lemma FillOf(h: seq<Word16>, i: nat, j: nat)
    requires |h| == 8 && i <= j <= 8 && ZeroBetween(h, i, j)
    ensures Fill(h[..i], h[j..]) == h
  {
  }

  /** A text with a form is accepted, and the hextets are the ones the form spells. */
  lemma ScanComplete(f: Form, t: string, h: seq<Word16>)
    requires |h| == 8 && Spells(f, t, h)
    ensures Scan(t, []) == Ok(h)
  {
    hide HextetOf, QuadOf, Denotes, AllDenote, Join, Scan, Tail, Fill;
    match f
    case Whole(ps) =>
      HexesFacts(ps, h);
      WholeComplete(ps, h);
    case WholeQuad(ps, quad) =>
      QuadPiece(quad, h[6..]);
      JoinTerminated(ps, quad, ':');
      ScanPieces(ps, h[..6], quad, []);
      assert [] + h[..6] == h[..6];
      ScanQuad(quad, h);
    case Gap(ls, rs) =>
      TailComplete(rs, h[8 - |rs|..], h[..|ls|]);
      FillOf(h, |ls|, 8 - |rs|);
      GapComplete(ls, h[..|ls|], Join(rs, ':'));
    case GapQuad(ls, rs, quad) =>
      TailQuadComplete(rs, h[6 - |rs|..6], quad, h[6..], h[..|ls|]);
      FillOf(h, |ls|, 6 - |rs|);
      assert h[6 - |rs|..6] + h[6..] == h[6 - |rs|..];
      GapComplete(ls, h[..|ls|], Join(rs + [quad], ':'));
  }

  lemma ScanQuad(quad: string, h: seq<Word16>)
    requires |h| == 8 && QuadOf(quad) == Ok(h[6..]) && Find(quad, ':') < 0
    ensures Scan(quad, h[..6]) == Ok(h)
  {
    hide QuadOf;
    assert h[..6] + h[6..] == h;
  }

  lemma WholeComplete(ps: seq<string>, h: seq<Word16>)
    requires |h| == 8 && Hexes(ps, h)
    ensures Scan(Join(ps, ':'), []) == Ok(h) && Scan(Join(ps, ':') + ":", []) == Ok(h)
  {
    hide HextetOf, Denotes, Join;
    HexesFacts(ps, h);
    HexesSlice(ps, h, 0, 7);
    assert ps == ps[..7] + [ps[7]] && h == h[..7] + [h[7]];
    JoinClosed(ps[..7], ps[7]);
    ScanPieces(ps, h, "", []);
    assert [] + h == h && Terminated(ps, ':') + "" == Terminated(ps, ':');
    ScanEmpty(h);
    ScanPieces(ps[..7], h[..7], ps[7], []);
    assert [] + h[..7] == h[..7];
    assert Denotes(ps[7], h[7], 16, UINT16);
    HexPiece(ps[7], h[7]);
    ScanLast(ps[7], h[7], h[..7]);
  }

  lemma ScanLast(p: string, v: Word16, l: seq<Word16>)
    requires HextetOf(p) == Ok(v) && |l| == 7 && p != "" && Without(p, ':')
    ensures Scan(p, l) == Ok(l + [v])
  {
    hide HextetOf, QuadOf, Tail;
    assert Before(p, Find(p, ':')) == p && After(p, Find(p, ':')) == "";
    ScanEmpty(l + [v]);
  }

  lemma GapComplete(ls: seq<string>, l: seq<Word16>, rest: string)
    requires Hexes(ls, l) && |l| < 8
    ensures Scan(Join(ls, ':') + "::" + rest, []) == Tail(rest, l)
  {
    hide HextetOf, QuadOf, Denotes, Tail;
    if ls == [] {
      var t := Join(ls, ':') + "::" + rest;
      assert t == "::" + rest && t[2..] == rest;
      FindAt(t, ':', 0);
      assert l == [];
    } else {
      var n := |ls| - 1;
      var p, sv := ls[n], ls[n] + "::" + rest;
      assert ls == ls[..n] + [p] && l == l[..n] + [l[n]];
      HexesSlice(ls, l, 0, n);
      HexesFacts(ls, l);
      JoinClosed(ls[..n], p);
      assert Join(ls, ':') + "::" + rest == Terminated(ls[..n], ':') + sv;
      ScanPieces(ls[..n], l[..n], sv, []);
      assert [] + l[..n] == l[..n];
      assert Denotes(p, l[n], 16, UINT16);
      HexPiece(p, l[n]);
      ScanGap(p, l[n], rest, l[..n]);
    }
  }

  lemma ScanLoneColon(text: string)
    ensures Scan(text, []) == Scan(DropLoneColon(text), [])
  {
    hide HextetOf, QuadOf, Tail;
    if DropLoneColon(text) != text {
      FindAt(text, ':', 0);
    }
  }

  /** A text is accepted as an address exactly when, after a lone colon in front is dropped, some
      form spells it with the hextets of that address. */
  lemma In6Exact(text: string, a: In6Addr)
    requires a.Valid()
    ensures In6Of(text) == Ok(a) <==> exists f :: Spells(f, DropLoneColon(text), HextetsIn(a))
  {
    hide Scan;
    var t, h := DropLoneColon(text), HextetsIn(a);
    ScanLoneColon(text);
    HextetsInverse(h, a);
    if In6Of(text) == Ok(a) {
      var hs := Scan(text, []).value;
      HextetsInverse(hs, a);
      JoinNone(t);
      var f := ScanSound([], [], t, h);
    }
    forall f | Spells(f, t, h)
      ensures In6Of(text) == Ok(a)
    {
      ScanComplete(f, t, h);
    }
  }
}
