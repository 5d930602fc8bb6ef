/** A descriptor as `fret` of `src/fd/impl.cpp` presents it: bytes, an empty result when the call would
    block, an exception at the end of the stream and on errors. What the system does is a script that
    may be anything; once it has run out, every call moves all it can. */
module Descriptor {

  /** One byte of a stream. */
  type Byte = char

  /** `WouldBlock`, `Eof` and `Incomplete` of `exception.hpp`, and any other `std::system_error`. All four
      are caught as `std::system_error`. */
  datatype Exception = Eof | WouldBlock | Incomplete | SysError(errno: int)

  datatype Result<+T> = Ok(value: T) | Err(error: Exception)

  datatype Direction = In | Out

  type Count = n: int | n > 0 witness 1

  /** What the system may do to one call: move up to so many bytes, have none yet, end, or fail. */
  datatype Step = Ready(n: Count) | Again | End | Fail(errno: int)

  /** The script, and the bytes still to be read. */
  datatype Source = Source(script: seq<Step>, incoming: seq<Byte>)

  function Min(a: nat, b: nat): nat {
    if a < b then a else b
  }

  // ---------------------------------------------------------------- one call

  /** The result of `read` or `write`: a count, `EAGAIN`, or another error. */
  datatype Sys = Moved(n: nat) | TryAgain | Errno(errno: int)

  function SysCall(s: Source, dir: Direction, len: nat): (r: Sys)
    ensures r.Moved? ==> r.n <= len && (dir.In? ==> r.n <= |s.incoming|)
  {
    var most := if dir.In? then Min(len, |s.incoming|) else len;
    if s.script == [] then Moved(most)
    else match s.script[0]
      case Ready(n) => Moved(Min(n, most))
      case Again => TryAgain
      case End => Moved(0)
      case Fail(errno) => Errno(errno)
  }

  /** `fret` */
  function Fret(len: nat, r: Sys): Result<nat> {
    match r
    case TryAgain => Ok(0)
    case Errno(errno) => Err(SysError(errno))
    case Moved(n) => if n == 0 && len > 0 then Err(Eof) else Ok(n)
  }

  function Outcome(s: Source, dir: Direction, len: nat): (r: Result<nat>)
    ensures r.Ok? ==> r.value <= len && (dir.In? ==> r.value <= |s.incoming|)
    ensures r.Err? ==> r.error.Eof? || r.error.SysError?
  {
    Fret(len, SysCall(s, dir, len))
  }

  function Got(r: Result<nat>): nat {
    if r.Ok? then r.value else 0
  }

  function After(s: Source, dir: Direction, len: nat): Source {
    Source(if s.script == [] then [] else s.script[1..],
           if dir.In? then s.incoming[Got(Outcome(s, dir, len))..] else s.incoming)
  }

  // ---------------------------------------------------------------- kinds of script

  /** The system neither blocks nor fails nor ends before the stream does. */
  ghost predicate AllReady(script: seq<Step>) {
    forall i | 0 <= i < |script| :: script[i].Ready?
  }

  /** The system neither blocks nor fails. */
  ghost predicate Quiet(script: seq<Step>) {
    forall i | 0 <= i < |script| :: script[i].Ready? || script[i].End?
  }

  /** The stream does not end before its last byte has been read. */
  ghost predicate Endless(script: seq<Step>) {
    forall i | 0 <= i < |script| :: !script[i].End?
  }

  lemma AfterReady(s: Source, dir: Direction, len: nat)
    ensures AllReady(s.script) ==> AllReady(After(s, dir, len).script)
  {
  }

  /** How much so many ready steps can move. */
  ghost function Room(script: seq<Step>, k: nat): nat
    requires k <= |script|
  {
    if k == 0 then 0 else Room(script, k - 1) + match script[k - 1] case Ready(n) => n case _ => 0
  }

  /** The first `k` steps of the script, all of them ready, have led from one source to the other, and each
      has moved something; there may have been more calls once the script had run out. */
  ghost predicate Runs(dir: Direction, was: Source, now: Source, k: nat) {
    && k <= |was.script| && now.script == was.script[k..]
    && (forall i | 0 <= i < k :: was.script[i].Ready?)
    && (dir.In? ==>
          && k + |now.incoming| <= |was.incoming|
          && (k < |was.script| ==> |was.incoming| <= |now.incoming| + Room(was.script, k)))
  }

  /** What the next step makes of a call that asks for something and gets nothing. */
  ghost predicate Causes(dir: Direction, s: Source, e: Exception) {
    if s.script == [] then dir.In? && s.incoming == [] && e == Eof
    else match s.script[0]
      case Ready(_) => dir.In? && s.incoming == [] && e == Eof
      case Again => e == WouldBlock
      case End => e == Eof
      case Fail(errno) => e == SysError(errno)
  }

  /** `k` ready steps and then one, if there is one, that moved nothing. */
  ghost predicate StopsAt(dir: Direction, was: Source, now: Source, e: Exception, k: nat) {
    && k <= |was.script|
    && var mid := Source(was.script[k..], now.incoming);
      && Runs(dir, was, mid, k) && Causes(dir, mid, e)
      && now.script == if mid.script == [] then [] else mid.script[1..]
  }

  /** What a loop over a descriptor ends with: the first call that moved nothing. */
  ghost predicate Stops(dir: Direction, was: Source, now: Source, e: Exception) {
    exists k: nat :: StopsAt(dir, was, now, e, k)
  }

  /** What an operation throws that takes an empty result for would-block. */
  function ErrorOf(r: Result<nat>): Exception {
    if r.Err? then r.error else WouldBlock
  }

  lemma RunsStart(dir: Direction, s: Source)
    ensures Runs(dir, s, s, 0)
  {
  }

  lemma RunsStep(dir: Direction, was: Source, mid: Source, k: nat, len: nat) returns (k': nat)
    requires Runs(dir, was, mid, k) && Got(Outcome(mid, dir, len)) > 0
    ensures Runs(dir, was, After(mid, dir, len), k')
  {
    k' := if mid.script == [] then k else k + 1;
    if mid.script != [] { assert was.script[k..][1..] == was.script[k + 1..]; }
  }

  lemma StopsStep(dir: Direction, was: Source, mid: Source, k: nat, len: nat)
    requires Runs(dir, was, mid, k) && len > 0 && Got(Outcome(mid, dir, len)) == 0
    ensures Stops(dir, was, After(mid, dir, len), ErrorOf(Outcome(mid, dir, len)))
  {
    var now, e := After(mid, dir, len), ErrorOf(Outcome(mid, dir, len));
    assert Source(was.script[k..], now.incoming) == mid;
    assert StopsAt(dir, was, now, e, k);
  }

  /** Where a loop has got to tells what it ended with: a would-block, an error and the end of the stream
      cannot be taken for one another. */
  lemma StopsUnique(dir: Direction, was: Source, now: Source, e: Exception, f: Exception)
    requires Stops(dir, was, now, e) && Stops(dir, was, now, f)
    ensures e == f
  {
    var j: nat :| StopsAt(dir, was, now, e, j);
    var k: nat :| StopsAt(dir, was, now, f, k);
    assert j != k ==> |now.script| == 0 && |was.script| <= j + 1 && |was.script| <= k + 1;
  }

  /** What the script has to do with the exception */
  lemma StopsMeans(dir: Direction, was: Source, now: Source, e: Exception)
    requires Stops(dir, was, now, e)
    ensures e != Incomplete
    ensures Quiet(was.script) ==> e == Eof
    ensures AllReady(was.script) ==> e == Eof && dir.In? && now.incoming == []
    ensures Endless(was.script) ==> Endless(now.script) && (e == Eof ==> dir.In? && now.incoming == [])
  {
  }

  // ---------------------------------------------------------------- several calls

  /** Everything a call can change: the source, the buffer, and the bytes moved so far. */
  datatype View = View(src: Source, data: seq<Byte>, moved: seq<Byte>)

  /** `n` bytes have been moved between the stream and the front of the buffer, and nothing else. */
  ghost predicate Progress(dir: Direction, was: View, now: View, n: nat) {
    && n <= |was.data| == |now.data|
    && now.moved == was.moved + now.data[..n]
    && match dir
       case In =>
         && n <= |was.src.incoming| && now.src.incoming == was.src.incoming[n..]
         && now.data == was.src.incoming[..n] + was.data[n..]
       case Out => now.src.incoming == was.src.incoming && now.data == was.data
  }

  /** A source, and how many bytes it has moved since. */
  datatype Point = Point(src: Source, n: nat)

  /** One call more, for what is left of `len` */
  function Then(p: Point, dir: Direction, len: nat): (q: Point)
    requires p.n <= len
    ensures q.n <= len
  {
    Point(After(p.src, dir, len - p.n), p.n + Got(Outcome(p.src, dir, len - p.n)))
  }

  /** Where `k` calls lead. */
  ghost function Reached(s: Source, dir: Direction, len: nat, k: nat): (p: Point)
    ensures p.n <= len
  {
    if k == 0 then Point(s, 0) else Then(Reached(s, dir, len, k - 1), dir, len)
  }

  lemma CutInThree(s: seq<Byte>, a: nat, b: nat)
    requires a <= b <= |s|
    ensures s == s[..a] + s[a..b] + s[b..]
  {
  }

  class Fd {
    var src: Source
    /** Every byte moved so far, in order. */
    ghost var moved: seq<Byte>

    constructor (src: Source)
      ensures this.src == src && moved == []
    {
      this.src := src;
      moved := [];
    }

    ghost function Look(data: array<Byte>): View
      reads this, data
    {
      View(src, data[..], moved)
    }

    /** `read` and `recv` into, `write` and `send` from `data.subspan(from, len)` */
    method Op(dir: Direction, data: array<Byte>, from: nat, len: nat) returns (r: Result<nat>)
      requires from + len <= data.Length
      modifies this, data
      ensures r == Outcome(old(src), dir, len) && src == After(old(src), dir, len)
      ensures dir.Out? ==> data[..] == old(data[..])
      ensures dir.In? ==>
        data[..] == old(data[..from]) + old(src).incoming[..Got(r)] + old(data[from + Got(r)..])
      ensures moved == old(moved) + data[from..from + Got(r)]
    {
      hide SysCall, Fret, After;
      r := Outcome(src, dir, len);
      var n := Got(r);
      if dir.In? {
        for i := 0 to n
          invariant src == old(src) && moved == old(moved)
          invariant data[..from] == old(data[..from]) && data[from + i..] == old(data[from + i..])
          invariant data[from..from + i] == src.incoming[..i]
        {
          data[from + i] := src.incoming[i];
        }
      }
      CutInThree(data[..], from, from + n);
      moved := moved + data[from..from + n];
      src := After(src, dir, len);
    }
  }
}
