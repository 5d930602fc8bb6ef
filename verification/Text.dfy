/** Views on character sequences: the `std::string_view` searches the codecs use, and the
    split of a text at a separator that their specifications are written with. */
module Text {

  datatype Error = Invalid | Overflow

  /** The result of a decoder, or the exception it throws:
      `std::invalid_argument` or `std::overflow_error`. */
  datatype Result<+T> = Ok(value: T) | Err(error: Error)

  ghost predicate Without(s: string, c: char) {
    forall j | 0 <= j < |s| :: s[j] != c
  }

  /** `string_view::find(c)`. `npos` is -1, and `npos + 1` is 0 as it is in the source. */
  function Find(s: string, c: char): (k: int)
    ensures -1 <= k < |s|
    ensures k >= 0 ==> s[k] == c
    ensures forall j | 0 <= j < if k < 0 then |s| else k :: s[j] != c
  {
    FindFrom(s, c, 0)
  }

  function FindFrom(s: string, c: char, i: nat): (k: int)
    requires i <= |s|
    ensures k == -1 || i <= k < |s|
    ensures k >= 0 ==> s[k] == c
    ensures forall j | i <= j < if k < 0 then |s| else k :: s[j] != c
    decreases |s| - i
  {
    if i == |s| then -1 else if s[i] == c then i else FindFrom(s, c, i + 1)
  }

  /** `string_view::rfind(c)`. */
  function RFind(s: string, c: char): (k: int)
    ensures -1 <= k < |s|
    ensures k >= 0 ==> s[k] == c
    ensures forall j | k < j < |s| :: s[j] != c
  {
    RFindTo(s, c, |s|)
  }

  function RFindTo(s: string, c: char, n: nat): (k: int)
    requires n <= |s|
    ensures -1 <= k < n
    ensures k >= 0 ==> s[k] == c
    ensures forall j | k < j < n :: s[j] != c
  {
    if n == 0 then -1 else if s[n - 1] == c then n - 1 else RFindTo(s, c, n - 1)
  }

  /** `sv.substr(0, loc)` for a `loc` that `Find` returned. */
  function Before(s: string, loc: int): string
    requires -1 <= loc <= |s|
  {
    if loc < 0 then s else s[..loc]
  }

  /** `sv.remove_prefix(loc == npos ? sv.size() : loc + 1)`. */
  function After(s: string, loc: int): string
    requires -1 <= loc < |s|
  {
    if loc < 0 then "" else s[loc + 1..]
  }

  /** All the pieces of `s` between separators. */
  function Split(s: string, c: char): (ps: seq<string>)
    ensures |ps| >= 1
    decreases |s|
  {
    var k := Find(s, c);
    if k < 0 then [s] else [s[..k]] + Split(s[k + 1..], c)
  }

  /** The first `n - 1` pieces of `s`, and whatever follows them as the last. */
  function SplitN(s: string, c: char, n: nat): (ps: seq<string>)
    requires n >= 1
    ensures 1 <= |ps| <= n
  {
    var k := Find(s, c);
    if n == 1 || k < 0 then [s] else [s[..k]] + SplitN(s[k + 1..], c, n - 1)
  }

  function Join(ps: seq<string>, c: char): string
  {
    if ps == [] then ""
    else if |ps| == 1 then ps[0]
    else ps[0] + [c] + Join(ps[1..], c)
  }

  ghost predicate Free(ps: seq<string>, c: char) {
    forall i | 0 <= i < |ps| :: Without(ps[i], c)
  }

  function Reverse<T>(s: seq<T>): (r: seq<T>)
    ensures |r| == |s|
  {
    if s == [] then [] else Reverse(s[1..]) + [s[0]]
  }

  lemma FindAt(s: string, c: char, k: nat)
    requires k < |s| && s[k] == c && forall j | 0 <= j < k :: s[j] != c
    ensures Find(s, c) == k
  {
  }

  lemma RFindAt(s: string, c: char, k: nat)
    requires k < |s| && s[k] == c && forall j | k < j < |s| :: s[j] != c
    ensures RFind(s, c) == k
  {
  }

  /** A piece, the separator, and a rest split into the piece and the pieces of the rest. */
  lemma SplitCons(p: string, c: char, rest: string)
    requires Without(p, c)
    ensures Find(p + [c] + rest, c) == |p|
    ensures Split(p + [c] + rest, c) == [p] + Split(rest, c)
  {
    var s := p + [c] + rest;
    assert s[..|p|] == p;
    FindAt(s, c, |p|);
    assert s[|p| + 1..] == rest;
  }

  lemma SplitNCons(p: string, c: char, rest: string, n: nat)
    requires Without(p, c) && n > 1
    ensures SplitN(p + [c] + rest, c, n) == [p] + SplitN(rest, c, n - 1)
  {
    var s := p + [c] + rest;
    assert s[..|p|] == p;
    FindAt(s, c, |p|);
    assert s[|p| + 1..] == rest;
  }

  /** A text with a separator is its first piece, the separator and the rest. */
  lemma CutAtFirst(s: string, c: char) returns (p: string, rest: string)
    requires !Without(s, c)
    ensures s == p + [c] + rest && Without(p, c)
    ensures |rest| < |s|
  {
    var k := Find(s, c);
    p, rest := s[..k], s[k + 1..];
  }

  /** Joining pieces and splitting the text again gives the pieces. */
  lemma {:induction false} SplitJoin(ps: seq<string>, c: char)
    requires |ps| >= 1 && Free(ps, c)
    ensures Split(Join(ps, c), c) == ps
  {
    if |ps| > 1 {
      SplitJoin(ps[1..], c);
      SplitCons(ps[0], c, Join(ps[1..], c));
      assert ps == [ps[0]] + ps[1..];
    } else {
      assert ps == [ps[0]];
    }
  }

  lemma {:induction false} JoinSplit(s: string, c: char)
    ensures Join(Split(s, c), c) == s
    decreases |s|
  {
    if Find(s, c) >= 0 {
      var p, rest := CutAtFirst(s, c);
      JoinSplit(rest, c);
      SplitCons(p, c, rest);
      assert ([p] + Split(rest, c))[1..] == Split(rest, c);
    }
  }

  /** Splitting is the only way to write a text as pieces free of the separator. */
  lemma SplitUnique(ps: seq<string>, s: string, c: char)
    requires |ps| >= 1 && Free(ps, c)
    ensures Join(ps, c) == s <==> ps == Split(s, c)
  {
    SplitJoin(ps, c);
    JoinSplit(s, c);
  }

  lemma {:induction false} SplitNIsSplit(s: string, c: char, n: nat)
    requires n >= 1
    ensures |Split(s, c)| <= n ==> SplitN(s, c, n) == Split(s, c)
    ensures |Split(s, c)| > n ==> |SplitN(s, c, n)| == n && !Without(SplitN(s, c, n)[n - 1], c)
    decreases |s|
  {
    if Find(s, c) >= 0 && n > 1 {
      var p, rest := CutAtFirst(s, c);
      SplitNIsSplit(rest, c, n - 1);
      SplitCons(p, c, rest);
      assert Split(s, c) == [p] + Split(rest, c);
      SplitNCons(p, c, rest, n);
      assert SplitN(s, c, n) == [p] + SplitN(rest, c, n - 1);
    }
  }

  lemma {:induction false} JoinAppend(ps: seq<string>, qs: seq<string>, c: char)
    requires |ps| >= 1 && |qs| >= 1
    ensures Join(ps + qs, c) == Join(ps, c) + [c] + Join(qs, c)
  {
    if |ps| == 1 {
      assert (ps + qs)[1..] == qs;
    } else {
      JoinAppend(ps[1..], qs, c);
      assert (ps + qs)[1..] == ps[1..] + qs;
      assert ps[0] + [c] + (Join(ps[1..], c) + [c] + Join(qs, c)) == Join(ps, c) + [c] + Join(qs, c);
    }
  }

  lemma {:induction false} ReverseAt<T>(s: seq<T>, k: nat)
    requires k < |s|
    ensures Reverse(s)[k] == s[|s| - 1 - k]
  {
    if k < |s| - 1 { ReverseAt(s[1..], k); }
  }

  /** Every piece with a separator behind it. */
  ghost function Terminated(ps: seq<string>, c: char): string {
    if ps == [] then "" else Terminated(ps[..|ps| - 1], c) + ps[|ps| - 1] + [c]
  }

  lemma TerminatedSnoc(ps: seq<string>, p: string, c: char)
    ensures Terminated(ps + [p], c) == Terminated(ps, c) + p + [c]
  {
    assert (ps + [p])[..|ps|] == ps;
  }

  lemma {:induction false} TerminatedCons(p: string, ps: seq<string>, c: char)
    ensures Terminated([p] + ps, c) == p + [c] + Terminated(ps, c)
  {
    if ps == [] {
      assert [p] + ps == [] + [p];
      TerminatedSnoc([], p, c);
    } else {
      var n := |ps| - 1;
      TerminatedCons(p, ps[..n], c);
      assert [p] + ps == ([p] + ps[..n]) + [ps[n]];
      TerminatedSnoc([p] + ps[..n], ps[n], c);
    }
  }

  /** A joined text ends in its last piece; every other piece is terminated. */
  lemma {:induction false} JoinTerminated(ps: seq<string>, p: string, c: char)
    ensures Join(ps + [p], c) == Terminated(ps, c) + p
  {
    if ps == [] {
      assert ps + [p] == [p];
    } else {
      JoinTerminated(ps[1..], p, c);
      TerminatedCons(ps[0], ps[1..], c);
      assert ps == [ps[0]] + ps[1..];
      assert (ps + [p])[1..] == ps[1..] + [p];
    }
  }
}
