/** `LineReader` of `src/fd/line.cpp`: the pieces of a stream between newlines, however the descriptor
    delivers it. */
module Lines {
  import Text
  import opened Descriptor
  import opened FdOps

  const NL := '\n'
  const BUF_SIZE := 4096

  /** A line, a null pointer, or an exception. */
  datatype LineResult = Line(text: string) | Nothing | Thrown(error: Exception)

  /** What has been delivered is the lines returned, the line being put together, and what is buffered. */
  ghost predicate Underway(delivered: string, returned: seq<string>, current: string, buffered: string) {
    && Text.Free(returned, NL) && Text.Without(current, NL)
    && delivered == Text.Terminated(returned, NL) + current + buffered
  }

  lemma ChunkRead(delivered: string, returned: seq<string>, current: string, chunk: string)
    requires Underway(delivered, returned, current, "")
    ensures Underway(delivered + chunk, returned, current, chunk)
  {
    assert delivered + chunk == Text.Terminated(returned, NL) + current + chunk;
  }

  /** No newline is buffered: all of it belongs to the current line. */
  lemma ChunkTaken(delivered: string, returned: seq<string>, current: string, buffered: string)
    requires Underway(delivered, returned, current, buffered) && Text.Without(buffered, NL)
    ensures Underway(delivered, returned, current + buffered, "")
  {
    assert delivered == Text.Terminated(returned, NL) + (current + buffered) + "";
  }

  /** The first newline ends the current line. */
  lemma LineTaken(delivered: string, returned: seq<string>, current: string, buffered: string, i: nat)
    requires Underway(delivered, returned, current, buffered) && i < |buffered| && buffered[i] == NL
    requires Text.Without(buffered[..i], NL)
    ensures Underway(delivered, returned + [current + buffered[..i]], "", buffered[i + 1..])
  {
    var p := current + buffered[..i];
    Text.TerminatedSnoc(returned, p, NL);
    assert buffered == buffered[..i] + [NL] + buffered[i + 1..];
    assert delivered == Text.Terminated(returned, NL) + (p + [NL]) + buffered[i + 1..];
  }

  /** At the end of the stream what is left is the last line. */
  lemma LastTaken(delivered: string, returned: seq<string>, current: string)
    requires Underway(delivered, returned, current, "")
    ensures returned + [current] == Text.Split(delivered, NL)
  {
    Text.JoinTerminated(returned, current, NL);
    Text.SplitUnique(returned + [current], delivered, NL);
  }

  /** How much can still happen. */
  function Left(s: Source): nat {
    |s.script| + |s.incoming|
  }

  /** A read that moves nothing uses up a part of the script, or finds the end of the stream. */
  lemma ReadEffect(s: Source, len: nat)
    requires len > 0
    ensures var r, now := Outcome(s, In, len), After(s, In, len);
      && (r != Err(Eof) ==> Left(now) + Got(r) <= Left(s))
      && (r != Err(Eof) && Got(r) == 0 ==> Left(now) < Left(s))
      && Left(now) <= Left(s)
  {
  }

  lemma Reassemble(front: string, s: string, n: nat)
    requires n <= |s|
    ensures (front + s[..n]) + s[n..] == front + s
  {
    assert s[..n] + s[n..] == s;
  }

  lemma OutcomeKind(s: Source, dir: Direction, len: nat)
    ensures Outcome(s, dir, len).Err? ==> Outcome(s, dir, len).error != Incomplete
  {
  }

  class LineReader {
    const fd: Fd
    const buf: array<Byte>
    // `buf_data`, as a part of `buf`
    var off: nat
    var len: nat
    var line: string
    var lineComplete: bool
    var hitEof: bool

    /** Every line returned, and everything read. */
    ghost var returned: seq<string>
    ghost var delivered: string

    constructor (fd: Fd)
      ensures Valid() && fresh(buf) && this.fd == fd && !hitEof
      ensures returned == [] && delivered == ""
    {
      this.fd := fd;
      buf := new Byte[BUF_SIZE];
      off, len := 0, 0;
      line, lineComplete, hitEof := "", false, false;
      returned, delivered := [], "";
    }

    ghost predicate Valid()
      reads this, buf
    {
      && buf.Length == BUF_SIZE && off + len <= buf.Length
      && (hitEof ==> returned == Text.Split(delivered, NL))
      && (!hitEof ==> Underway(delivered, returned, Current(), buf[off..off + len]))
    }

    /** A completed line has been returned and is no longer being put together. */
    ghost function Current(): string
      reads this
    {
      if lineComplete then "" else line
    }

    /** More of the stream */
    method Refill() returns (r: Result<nat>)
      requires Valid() && !hitEof && len == 0
      modifies this, fd, buf
      ensures Valid() && !hitEof && len == (if r.Ok? then r.value else 0)
      ensures line == old(line) && lineComplete == old(lineComplete) && returned == old(returned)
      ensures r == Outcome(old(fd.src), In, BUF_SIZE) && fd.src == After(old(fd.src), In, BUF_SIZE)
      ensures delivered + fd.src.incoming == old(delivered) + old(fd.src).incoming
      ensures len + |fd.src.incoming| == |old(fd.src).incoming|
    {
      hide Underway, Progress, FirstMultiple, Reached, Outcome, After, Whole;
      ghost var was := fd.Look(buf);
      assert buf[off..off + len] == "";
      ghost var total, calls;
      r, total, calls := Read(fd, 1, buf);
      WholeOne(total);
      OneCall(was.src, BUF_SIZE, calls);
      OutcomeKind(was.src, In, BUF_SIZE);
      ProgressIn(was, fd.Look(buf), total);
      off, len := 0, if r.Ok? then r.value else 0;
      assert buf[off..off + len] == was.src.incoming[..len];
      ChunkRead(delivered, returned, Current(), was.src.incoming[..len]);
      Reassemble(delivered, was.src.incoming, len);
      delivered := delivered + was.src.incoming[..len];
    }

    /** The first newline in the buffered part */
    method Scan() returns (i: nat)
      requires Valid()
      ensures i <= len && Text.Without(buf[off..off + i], NL) && (i < len ==> buf[off + i] == NL)
    {
      i := 0;
      while i < len && buf[off + i] != NL
        invariant i <= len && Text.Without(buf[off..off + i], NL)
      {
        i := i + 1;
      }
    }

    /** What is buffered up to the first newline goes to the line; without one, all of it. */
    method Take() returns (complete: bool)
      requires Valid() && !hitEof && (lineComplete ==> line == "")
      modifies this
      ensures Valid() && !hitEof && delivered == old(delivered) && lineComplete == complete
      ensures returned == old(returned) + (if complete then [line] else [])
      ensures complete ==> len < old(len)
      ensures !complete ==> len == 0
    {
      hide Underway;
      lineComplete := false;
      var i := Scan();
      ghost var current, buffered := line, buf[off..off + len];
      assert buffered[..i] == buf[off..off + i];
      line := line + buf[off..off + i];
      if i < len {
        LineTaken(delivered, returned, current, buffered, i);
        off, len := off + i + 1, len - i - 1;
        assert buf[off..off + len] == buffered[i + 1..];
        lineComplete := true;
        returned := returned + [line];
      } else {
        assert buffered[..i] == buffered;
        ChunkTaken(delivered, returned, current, buffered);
        off, len := 0, 0;
        assert buf[off..off + len] == "";
      }
      complete := lineComplete;
    }

    /** `readLine`: one line, which at the end of the stream may be empty; nothing while the descriptor
        would block; and `Eof` ever after the last line. */
    method ReadLine() returns (r: LineResult)
      requires Valid()
      modifies this, fd, buf
      ensures Valid() && returned == old(returned) + (if r.Line? then [r.text] else [])
      ensures delivered + fd.src.incoming == old(delivered) + old(fd.src).incoming
      ensures old(hitEof) <==> r == Thrown(Eof)
      ensures old(hitEof) ==> hitEof && delivered == old(delivered) && fd.src == old(fd.src)
      ensures r == Nothing ==> Stops(In, old(fd.src), fd.src, WouldBlock)
      ensures r.Thrown? && !old(hitEof) ==> Stops(In, old(fd.src), fd.src, r.error)
      ensures hitEof && !old(hitEof) ==> r.Line? && Stops(In, old(fd.src), fd.src, Eof)
      ensures r.Line? && !hitEof ==> exists k :: Runs(In, old(fd.src), fd.src, k)
      ensures !old(hitEof) ==> Left(fd.src) + len + (if hitEof then 0 else 1) < old(Left(fd.src)) + old(len) + 1
    {
      hide Underway, Outcome, After, Runs, Stops, Left;
      if hitEof { return Thrown(Eof); }
      if lineComplete { line := ""; }
      ghost var was, k := fd.src, 0;
      RunsStart(In, was);
      while true
        invariant Valid() && !hitEof && returned == old(returned) && (lineComplete ==> line == "")
        invariant delivered + fd.src.incoming == old(delivered) + was.incoming
        invariant Runs(In, was, fd.src, k)
        invariant Left(fd.src) + len <= Left(was) + old(len)
        decreases Left(fd.src) + len
      {
        if len == 0 {
          ghost var mid := fd.src;
          ReadEffect(mid, BUF_SIZE);
          var got := Refill();
          if got.Err? || got.value == 0 {
            StopsStep(In, was, mid, k, BUF_SIZE);
            if got == Err(Eof) {
              Finish();
              return Line(line);
            }
            return if got.Ok? then Nothing else Thrown(got.error);
          }
          k := RunsStep(In, was, mid, k, BUF_SIZE);
        }
        var complete := Take();
        if complete { return Line(line); }
      }
    }

    /** The end of the stream: what has been put together is the last line. */
    method Finish()
      requires Valid() && !hitEof && len == 0 && (lineComplete ==> line == "")
      modifies this
      ensures Valid() && hitEof && len == 0 && line == old(line) && delivered == old(delivered)
      ensures returned == old(returned) + [line]
    {
      hide Underway;
      assert buf[off..off + len] == "";
      LastTaken(delivered, returned, Current());
      hitEof := true;
      returned := returned + [line];
    }
  }

  lemma RunsEndless(was: Source, now: Source, k: nat)
    requires Runs(In, was, now, k) && Endless(was.script)
    ensures Endless(now.script)
  {
  }

  /** Whatever the descriptor does, as long as the stream does not end early: calling `readLine` until it
      throws `Eof`, over would-block results and errors, gives exactly the pieces of the stream. */
  method AllLines(fd: Fd) returns (lines: seq<string>)
    modifies fd
    ensures Endless(old(fd.src).script) ==> lines == Text.Split(old(fd.src).incoming, NL)
  {
    hide Left, Endless, Underway, Runs, Stops, Quiet, AllReady;
    var reader := new LineReader(fd);
    ghost var was := fd.src;
    lines := [];
    var r := Nothing;
    while r != Thrown(Eof)
      invariant reader.Valid() && fresh(reader) && fresh(reader.buf) && reader.fd == fd
      invariant lines == reader.returned && reader.delivered + fd.src.incoming == was.incoming
      invariant Endless(was.script) ==> Endless(fd.src.script)
      invariant Endless(was.script) && reader.hitEof ==> fd.src.incoming == []
      invariant r == Thrown(Eof) ==> reader.hitEof
      decreases if reader.hitEof then 0 else Left(fd.src) + reader.len + 1, r != Thrown(Eof)
    {
      ghost var mid, hit := fd.src, reader.hitEof;
      r := reader.ReadLine();
      if Endless(was.script) && !hit {
        if r.Line? && !reader.hitEof {
          ghost var k :| Runs(In, mid, fd.src, k);
          RunsEndless(mid, fd.src, k);
        } else {
          StopsMeans(In, mid, fd.src, if r == Nothing then WouldBlock else if r.Line? then Eof else r.error);
        }
      }
      if r.Line? { lines := lines + [r.text]; }
    }
    assert reader.delivered + [] == reader.delivered;
  }
}
