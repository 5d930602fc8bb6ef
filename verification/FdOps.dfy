/** The stream operations of `src/fd/ops.cpp` and `include-fd/stdplus/fd/ops.hpp`: loops over a
    descriptor whose results do not depend on how it chunks the stream. */
module FdOps {
  import opened Bits
  import opened Descriptor

  /** One more call from where the others have got to. */
  lemma ProgressStep(dir: Direction, was: View, mid: View, now: View, n: nat, len: nat)
    requires Progress(dir, was, mid, n) && n + len <= |was.data| && now.src == After(mid.src, dir, len)
    requires dir.Out? ==> now.data == mid.data
    requires dir.In? ==> var k := Got(Outcome(mid.src, dir, len));
      now.data == mid.data[..n] + mid.src.incoming[..k] + mid.data[n + k..]
    requires now.moved == mid.moved + now.data[n..n + Got(Outcome(mid.src, dir, len))]
    ensures Progress(dir, was, now, n + Got(Outcome(mid.src, dir, len)))
  {
    var k := Got(Outcome(mid.src, dir, len));
    hide Outcome;
    assert now.data[..n] == mid.data[..n];
    assert now.data[..n] + now.data[n..n + k] == now.data[..n + k];
    if dir.In? {
      assert was.src.incoming[n..][k..] == was.src.incoming[n + k..];
      assert was.src.incoming[..n] + was.src.incoming[n..][..k] == was.src.incoming[..n + k];
      assert mid.data[..n] == was.src.incoming[..n];
      assert mid.data[n + k..] == was.data[n + k..];
    }
  }

  lemma ProgressStart(dir: Direction, v: View)
    ensures Progress(dir, v, v, 0)
  {
  }

  lemma ProgressEnd(dir: Direction, was: View, now: View, n: nat)
    requires Progress(dir, was, now, n)
    ensures n <= |was.data| == |now.data| && (dir.In? ==> |was.src.incoming| == n + |now.src.incoming|)
  {
  }

  lemma ProgressIn(was: View, now: View, n: nat)
    requires Progress(In, was, now, n)
    ensures n <= |was.src.incoming| && n <= |was.data| && |was.data| == |now.data|
    ensures now.src.incoming == was.src.incoming[n..] && now.data[..n] == was.src.incoming[..n]
  {
  }

  /** A system that is always ready moves something unless the stream is at its end. */
  lemma ReadyOutcome(s: Source, dir: Direction, len: nat)
    requires AllReady(s.script)
    ensures len > 0 && dir.In? && s.incoming == [] ==> Outcome(s, dir, len) == Err(Eof)
    ensures len > 0 && !(dir.In? && s.incoming == []) ==> Outcome(s, dir, len).Ok? && Got(Outcome(s, dir, len)) > 0
    ensures len == 0 ==> Outcome(s, dir, len) == Ok(0)
  {
  }

  /** One more call, on the part of the buffer that follows what is there. */
  method Continue(fd: Fd, dir: Direction, data: array<Byte>, done: nat, len: nat, ghost was: View)
    returns (got: Result<nat>)
    requires done + len <= data.Length && Progress(dir, was, fd.Look(data), done)
    modifies fd, data
    ensures got == Outcome(old(fd.src), dir, len) && fd.src == After(old(fd.src), dir, len)
    ensures got.Ok? ==> got.value <= len
    ensures Progress(dir, was, fd.Look(data), done + Got(got))
  {
    hide Outcome, Progress, After;
    ghost var mid := fd.Look(data);
    ProgressEnd(dir, was, mid, done);
    got := fd.Op(dir, data, done, len);
    ProgressStep(dir, was, mid, fd.Look(data), done, len);
  }

  /** All of it has been moved, or none, or the error says `Incomplete`. `e` is what ended the loop. */
  method OpExact(fd: Fd, dir: Direction, data: array<Byte>)
    returns (r: Result<()>, ghost total: nat, ghost e: Exception)
    modifies fd, data
    ensures Progress(dir, old(fd.Look(data)), fd.Look(data), total)
    ensures r.Ok? <==> total == data.Length
    ensures r.Err? ==> Stops(dir, old(fd.src), fd.src, e) && r.error == if total > 0 then Incomplete else e
    ensures r.Err? && total == 0 ==> e == ErrorOf(Outcome(old(fd.src), dir, data.Length))
    ensures AllReady(old(fd.src).script) ==> (r.Ok? <==> dir.Out? || data.Length <= |old(fd.src).incoming|)
  {
    hide Progress, Outcome, After, AllReady, Runs, Stops;
    var done := 0;
    ghost var was, k := fd.Look(data), 0;
    ProgressStart(dir, was);
    RunsStart(dir, was.src);
    while done < data.Length
      invariant done <= data.Length
      invariant Progress(dir, was, fd.Look(data), done) && Runs(dir, was.src, fd.src, k)
      invariant done == 0 ==> fd.src == was.src
    {
      ghost var mid := fd.src;
      var got := Continue(fd, dir, data, done, data.Length - done, was);
      if got.Err? || got.value == 0 {
        var thrown := if got.Err? then got.error else WouldBlock;
        StopsStep(dir, was.src, mid, k, data.Length - done);
        StopsMeans(dir, was.src, fd.src, thrown);
        ProgressEnd(dir, was, fd.Look(data), done);
        return Err(if done != 0 then Incomplete else thrown), done, thrown;
      }
      k := RunsStep(dir, was.src, mid, k, data.Length - done);
      done := done + got.value;
    }
    ProgressEnd(dir, was, fd.Look(data), done);
    return Ok(()), done, Eof;
  }

  /** So many bytes are so many whole elements. */
  predicate Whole(n: nat, align: nat)
    requires align > 0
  {
    n % align == 0
  }

  /** After `k` calls and no fewer, the bytes moved are a multiple of `align`. */
  ghost predicate FirstMultiple(s: Source, dir: Direction, len: nat, align: nat, k: nat)
    requires align > 0
  {
    && k >= 1 && Whole(Reached(s, dir, len, k).n, align)
    && forall j | 1 <= j < k :: !Whole(Reached(s, dir, len, j).n, align)
  }

  lemma ReachedNone(s: Source, dir: Direction, len: nat, align: nat)
    requires align > 0
    ensures Reached(s, dir, len, 0) == Point(s, 0) && Whole(0, align)
  {
  }

  lemma ReachedStep(s: Source, dir: Direction, len: nat, k: nat, p: Point)
    requires Reached(s, dir, len, k) == p
    ensures var q := Reached(s, dir, len, k + 1);
      q.src == After(p.src, dir, len - p.n) && q.n == p.n + Got(Outcome(p.src, dir, len - p.n))
  {
  }

  /** A stream and a buffer of whole elements, and a system that never keeps the caller waiting */
  ghost predicate Aligned(s: Source, dir: Direction, align: nat, len: nat)
    requires align > 0
  {
    AllReady(s.script) && dir.In? && len > 0 && Whole(len, align) && Whole(|s.incoming|, align)
  }

  /** The operation returns as soon as it has moved a multiple of `align`; an exception after part of
      one says `Incomplete`, any other means that nothing has been moved. */
  method OpAligned(fd: Fd, dir: Direction, align: nat, data: array<Byte>) returns (r: Result<nat>, ghost total: nat, ghost calls: nat)
    requires align > 0
    modifies fd, data
    ensures Progress(dir, old(fd.Look(data)), fd.Look(data), total)
    ensures Point(fd.src, total) == Reached(old(fd.src), dir, data.Length, calls)
    ensures r.Ok? ==> r.value == total && FirstMultiple(old(fd.src), dir, data.Length, align, calls)
    ensures r == Err(Incomplete) <==> !Whole(total, align)
    ensures r.Err? && r != Err(Incomplete) ==> total == 0 && calls == 1 && r == Outcome(old(fd.src), dir, data.Length)
    ensures r == Ok(0) ==> calls == 1 && Outcome(old(fd.src), dir, data.Length) == Ok(0)
    ensures Aligned(old(fd.src), dir, align, data.Length) ==>
      if old(fd.src).incoming == [] then r == Err(Eof) else r.Ok? && r.value > 0
  {
    hide Progress, After, AllReady, Whole, Reached, Then, Outcome;
    calls := 0;
    var done := 0;
    ReachedNone(fd.src, dir, data.Length, align);
    ghost var was := fd.Look(data);
    ProgressStart(dir, was);
    while true
      invariant done <= data.Length && (calls == 0 <==> done == 0)
      invariant Point(fd.src, done) == Reached(was.src, dir, data.Length, calls)
      invariant forall j | 1 <= j <= calls :: !Whole(Reached(was.src, dir, data.Length, j).n, align)
      invariant Progress(dir, was, fd.Look(data), done)
      invariant AllReady(was.src.script) ==> AllReady(fd.src.script)
      decreases data.Length - done, done == 0
    {
      ghost var mid := fd.src;
      ProgressEnd(dir, was, fd.Look(data), done);
      var got := Continue(fd, dir, data, done, data.Length - done, was);
      AfterReady(mid, dir, data.Length - done);
      if AllReady(mid.script) { ReadyOutcome(mid, dir, data.Length - done); }
      ReachedStep(was.src, dir, data.Length, calls, Point(mid, done));
      calls := calls + 1;
      if got.Err? {
        return Err(if Whole(done, align) then got.error else Incomplete), done, calls;
      }
      if done != 0 && got.value == 0 {
        return Err(Incomplete), done, calls;
      }
      done := done + got.value;
      if Whole(done, align) {
        return Ok(done), done, calls;
      }
    }
  }

  // ---------------------------------------------------------------- readAll

  const MAX_STRIDE := 65536

  /** `(req + sizeof(Data) - 1) / sizeof(Data) * sizeof(Data)` */
  function RoundUp(req: nat, elem: nat): nat
    requires elem > 0
  {
    (req + elem - 1) / elem * elem
  }

  lemma RoundUpIs(req: nat, elem: nat)
    requires elem > 0
    ensures req <= RoundUp(req, elem) < req + elem
    ensures RoundUp(req, elem) == req <==> Whole(req, elem)
  {
    var k, r := req / elem, req % elem;
    if r == 0 {
      DivModUnique(req + elem - 1, elem, k, elem - 1);
    } else {
      TimesSum(k, 1, elem);
      DivModUnique(req + elem - 1, elem, k + 1, r - 1);
    }
  }

  /** One request for room: how many bytes the descriptor had moved by then, and how much was asked for in
      all. */
  datatype Ask = Ask(moved: nat, req: nat)

  /** The container that `readAll` grows: whole elements, kept when it is resized. */
  class Container {
    const elem: nat
    var data: array<Byte>
    /** Every request made of it, in order. */
    ghost var asks: seq<Ask>

    constructor (elem: nat)
      requires elem > 0
      ensures this.elem == elem && fresh(data) && data.Length == 0 && asks == []
    {
      this.elem := elem;
      data := new Byte[0];
      asks := [];
    }

    /** The `resize` callback, with the descriptor that is being read */
    method Resize(req: nat, ghost fd: Fd)
      requires elem > 0
      modifies this
      ensures asks == old(asks) + [Ask(|fd.moved|, req)]
      ensures fresh(data) && data.Length == RoundUp(req, elem)
      ensures var kept := Min(old(data.Length), data.Length); data[..kept] == old(data[..kept])
    {
      hide RoundUp;
      RoundUpIs(req, elem);
      asks := asks + [Ask(|fd.moved|, req)];
      var was := data;
      data := new Byte[RoundUp(req, elem)];
      var kept := Min(was.Length, data.Length);
      for i := 0 to kept
        invariant fresh(data) && data.Length == RoundUp(req, elem) && data != was
        invariant asks == old(asks) + [Ask(|fd.moved|, req)]
        invariant data[..i] == old(was[..i]) && was[..] == old(was[..])
      {
        data[i] := was[i];
      }
    }
  }

  /** The most that is asked for after so many bytes. */
  function Most(total: nat): nat {
    total + (if total <= 128 then 256 else Min(MAX_STRIDE, 2 * total))
  }

  /** The container starts with the first `total` bytes of the stream, and those are all that was read. */
  ghost predicate Holds(was: View, now: View, total: nat) {
    && total <= |was.src.incoming| && now.src.incoming == was.src.incoming[total..]
    && total <= |now.data| && now.data[..total] == was.src.incoming[..total]
    && now.moved == was.moved + was.src.incoming[..total]
  }

  lemma HoldsStep(was: View, mid: View, now: View, total: nat, len: nat)
    requires Holds(was, mid, total) && now.src == After(mid.src, In, len) && total + len <= |mid.data|
    requires var k := Got(Outcome(mid.src, In, len));
      && now.data == mid.data[..total] + mid.src.incoming[..k] + mid.data[total + k..]
      && now.moved == mid.moved + now.data[total..total + k]
    ensures Holds(was, now, total + Got(Outcome(mid.src, In, len)))
  {
    hide Outcome;
    var k, inc := Got(Outcome(mid.src, In, len)), was.src.incoming;
    assert inc[total..][k..] == inc[total + k..] && inc[..total] + inc[total..][..k] == inc[..total + k];
    assert now.data[..total] == inc[..total] && now.data[total..total + k] == inc[total..][..k];
    assert now.data[..total + k] == now.data[..total] + now.data[total..total + k];
    assert was.moved + inc[..total] + inc[total..][..k] == was.moved + (inc[..total] + inc[total..][..k]);
  }

  lemma HoldsStart(v: View)
    ensures Holds(v, v, 0)
  {
  }

  lemma HoldsEnd(was: View, now: View, total: nat)
    requires Holds(was, now, total)
    ensures total <= |now.data| && |was.src.incoming| == total + |now.src.incoming|
    ensures |now.moved| == |was.moved| + total
    ensures |now.data| == total ==> now.data == was.src.incoming[..total]
  {
  }

  lemma HoldsResized(was: View, mid: View, now: View, total: nat)
    requires Holds(was, mid, total) && now.src == mid.src && now.moved == mid.moved
    requires total <= |now.data| && var kept := Min(|mid.data|, |now.data|); now.data[..kept] == mid.data[..kept]
    ensures Holds(was, now, total)
  {
    var kept := Min(|mid.data|, |now.data|);
    assert now.data[..total] == now.data[..kept][..total] == mid.data[..kept][..total] == mid.data[..total];
  }

  /** Room for `stride` bytes more, and one call to fill it */
  method ReadOn(fd: Fd, c: Container, total: nat, stride: nat, ghost was: View) returns (got: Result<nat>, ghost len: nat)
    requires c.elem > 0 && stride > 0 && Holds(was, fd.Look(c.data), total)
    modifies fd, c
    ensures fresh(c.data) && Holds(was, fd.Look(c.data), total + Got(got))
    ensures c.asks == old(c.asks) + [Ask(|old(fd.moved)|, total + stride)]
    ensures len > 0 && got == Outcome(old(fd.src), In, len) && fd.src == After(old(fd.src), In, len)
  {
    hide Holds, Outcome, After, RoundUp;
    ghost var mid := fd.Look(c.data);
    RoundUpIs(total + stride, c.elem);
    c.Resize(total + stride, fd);
    HoldsEnd(was, mid, total);
    ghost var there := fd.Look(c.data);
    HoldsResized(was, mid, there, total);
    len := c.data.Length - total;
    got := fd.Op(In, c.data, total, c.data.Length - total);
    HoldsStep(was, there, fd.Look(c.data), total, len);
  }

  /** `doRead`: an empty result is thrown as `WouldBlock`. */
  method DoRead(fd: Fd, c: Container, total: nat, stride: nat, ghost was: View, ghost k: nat)
    returns (got: Result<nat>, ghost k': nat)
    requires c.elem > 0 && stride > 0 && Holds(was, fd.Look(c.data), total) && Runs(In, was.src, fd.src, k)
    modifies fd, c
    ensures fresh(c.data) && Holds(was, fd.Look(c.data), total + Got(got))
    ensures c.asks == old(c.asks) + [Ask(|old(fd.moved)|, total + stride)]
    ensures got.Ok? ==> got.value > 0 && Runs(In, was.src, fd.src, k')
    ensures got.Err? ==> Stops(In, was.src, fd.src, got.error)
  {
    hide Holds, Outcome, After, Runs, Stops;
    ghost var mid, len := fd.src, 0;
    got, len := ReadOn(fd, c, total, stride, was);
    k' := k;
    if got.Err? || got.value == 0 {
      StopsStep(In, was.src, mid, k, len);
      got := Err(if got.Err? then got.error else WouldBlock);
    } else {
      k' := RunsStep(In, was.src, mid, k, len);
    }
  }

  /** Every request from the `from`th on was within the bound of what had been read by then, `base` being
      what the descriptor had moved at the start. */
  ghost predicate Modest(asks: seq<Ask>, from: nat, base: nat) {
    forall i | from <= i < |asks| :: asks[i].moved >= base && asks[i].req <= Most(asks[i].moved - base)
  }

  lemma ModestMore(asks: seq<Ask>, from: nat, base: nat, total: nat, stride: nat)
    requires Modest(asks, from, base) && stride <= MAX_STRIDE && (stride <= 256 || stride <= 2 * total)
    ensures Modest(asks + [Ask(base + total, total + stride)], from, base)
  {
  }

  lemma ModestNone(asks: seq<Ask>, base: nat)
    ensures Modest(asks, |asks|, base)
  {
  }

  /** The `try` block of `readAll`, which only an exception leaves. */
  method Fill(fd: Fd, c: Container, ghost was: View) returns (e: Exception, total: nat)
    requires c.elem > 0 && was == fd.Look(c.data) && Holds(was, was, 0)
    modifies fd, c
    ensures fresh(c.data) || c.data == old(c.data)
    ensures Holds(was, fd.Look(c.data), total) && Stops(In, was.src, fd.src, e)
    ensures Modest(c.asks, |old(c.asks)|, |was.moved|)
  {
    hide Holds, Runs, Stops, Modest;
    var stride := 256;
    total := 0;
    ghost var k, from := 0, |c.asks|;
    ModestNone(c.asks, |was.moved|);
    RunsStart(In, was.src);
    while stride < MAX_STRIDE
      invariant fresh(c.data) || c.data == old(c.data)
      invariant 256 <= stride <= MAX_STRIDE && (stride > 256 ==> stride <= 2 * total)
      invariant Doubling(stride) && Modest(c.asks, from, |was.moved|)
      invariant Holds(was, fd.Look(c.data), total) && Runs(In, was.src, fd.src, k)
      decreases |fd.src.incoming|
    {
      HoldsEnd(was, fd.Look(c.data), total);
      ModestMore(c.asks, from, |was.moved|, total, stride);
      var got;
      got, k := DoRead(fd, c, total, stride, was, k);
      if got.Err? { return got.error, total; }
      total := total + got.value;
      HoldsEnd(was, fd.Look(c.data), total);
      if total >= stride {
        stride := stride * 2;
      }
    }
    while true
      invariant fresh(c.data) || c.data == old(c.data)
      invariant stride == MAX_STRIDE <= 2 * total && Modest(c.asks, from, |was.moved|)
      invariant Holds(was, fd.Look(c.data), total) && Runs(In, was.src, fd.src, k)
      decreases |fd.src.incoming|
    {
      HoldsEnd(was, fd.Look(c.data), total);
      ModestMore(c.asks, from, |was.moved|, total, stride);
      var got;
      got, k := DoRead(fd, c, total, stride, was, k);
      if got.Err? { return got.error, total; }
      total := total + got.value;
      HoldsEnd(was, fd.Look(c.data), total);
    }
  }

  /** The strides there are below the largest. */
  predicate Doubling(stride: nat) {
    stride == 256 || stride == 512 || stride == 1024 || stride == 2048 || stride == 4096 || stride == 8192
    || stride == 16384 || stride == 32768 || stride == 65536
  }

  /** What was read until something went wrong, `e`: if that is the end of the stream it fills the container,
      and a part of an element is `Incomplete` whatever went wrong. Never is more room asked for than the
      bound. */
  method ReadAllInto(fd: Fd, c: Container) returns (r: Result<()>, ghost total: nat, ghost e: Exception)
    requires c.elem > 0 && c.data.Length == 0
    modifies fd, c
    ensures total <= |old(fd.src).incoming| && fd.src.incoming == old(fd.src).incoming[total..]
    ensures fd.moved == old(fd.moved) + old(fd.src).incoming[..total]
    ensures Stops(In, old(fd.src), fd.src, e)
    ensures r == if !Whole(total, c.elem) then Err(Incomplete) else if e == Eof then Ok(()) else Err(e)
    ensures Whole(total, c.elem) ==> c.data[..] == old(fd.src).incoming[..total]
    ensures Modest(c.asks, |old(c.asks)|, |old(fd.moved)|)
  {
    hide Whole, RoundUp, Modest, Stops;
    ghost var was := fd.Look(c.data);
    HoldsStart(was);
    var thrown, done := Fill(fd, c, was);
    ghost var mid := fd.Look(c.data);
    RoundUpIs(done, c.elem);
    ModestMore(c.asks, |old(c.asks)|, |was.moved|, done, 0);
    c.Resize(done, fd);
    HoldsResized(was, mid, fd.Look(c.data), done);
    HoldsEnd(was, fd.Look(c.data), done);
    StopsMeans(In, was.src, fd.src, thrown);
    total, e := done, thrown;
    if done != c.data.Length {
      r := Err(Incomplete);
    } else if thrown == Eof {
      r := Ok(());
    } else {
      r := Err(thrown);
    }
  }

  /** `readAll<Container>`: the same in a container of its own. If every step is ready, it is the whole
      stream. */
  method ReadAll(fd: Fd, elem: nat) returns (r: Result<seq<Byte>>, ghost total: nat, ghost e: Exception)
    requires elem > 0
    modifies fd
    ensures total <= |old(fd.src).incoming| && fd.src.incoming == old(fd.src).incoming[total..]
    ensures Stops(In, old(fd.src), fd.src, e)
    ensures r == if !Whole(total, elem) then Err(Incomplete)
                 else if e == Eof then Ok(old(fd.src).incoming[..total]) else Err(e)
    ensures AllReady(old(fd.src).script) ==>
      var all := old(fd.src).incoming;
      total == |all| && r == if Whole(|all|, elem) then Ok(all) else Err(Incomplete)
  {
    hide AllReady, Quiet, Endless, Whole, Modest, Stops;
    ghost var was := fd.src;
    var c := new Container(elem);
    var done;
    done, total, e := ReadAllInto(fd, c);
    StopsMeans(In, was, fd.src, e);
    if total == |was.incoming| { TakenAll(was.incoming); }
    r := if done.Err? then Err(done.error) else Ok(c.data[..]);
  }

  lemma TakenAll(s: seq<Byte>)
    ensures s[..|s|] == s
  {
  }

  // ---------------------------------------------------------------- readAllFixed

  /** `errc::value_too_large` */
  const EOVERFLOW := 75

  /** What fits the buffer, in reads of at most `MAX_STRIDE`. Without an exception the buffer is full. */
  method FillFixed(fd: Fd, buf: array<Byte>) returns (e: Result<()>, total: nat, ghost k: nat)
    modifies fd, buf
    ensures Progress(In, old(fd.Look(buf)), fd.Look(buf), total)
    ensures e.Ok? ==> total == buf.Length && Runs(In, old(fd.src), fd.src, k)
    ensures e.Err? ==> total < buf.Length && Stops(In, old(fd.src), fd.src, e.error)
  {
    hide Progress, Outcome, After, Runs, Stops;
    total, k := 0, 0;
    ghost var was := fd.Look(buf);
    ProgressStart(In, was);
    RunsStart(In, was.src);
    while total < buf.Length
      invariant total <= buf.Length
      invariant Progress(In, was, fd.Look(buf), total) && Runs(In, was.src, fd.src, k)
    {
      ghost var mid := fd.src;
      var len := Min(MAX_STRIDE, buf.Length - total);
      var got := Continue(fd, In, buf, total, len, was);
      if got.Err? || got.value == 0 {
        StopsStep(In, was.src, mid, k, len);
        return Err(if got.Err? then got.error else WouldBlock), total, k;
      }
      k := RunsStep(In, was.src, mid, k, len);
      total := total + got.value;
    }
    return Ok(()), total, k;
  }

  /** A full buffer is only accepted if there is nothing more: one more byte is asked for, and if there is
      one, it is lost. */
  method Probe(fd: Fd, ghost was: Source, ghost k: nat) returns (e: Exception, ghost extra: nat)
    requires Runs(In, was, fd.src, k)
    modifies fd
    ensures extra <= 1 && extra <= |old(fd.src).incoming| && fd.src.incoming == old(fd.src).incoming[extra..]
    ensures if extra == 1 then e == SysError(EOVERFLOW) && exists k' :: Runs(In, was, fd.src, k')
            else Stops(In, was, fd.src, e)
    ensures fd.moved == old(fd.moved) + old(fd.src).incoming[..extra]
  {
    hide Runs, Stops;
    var b := new Byte[1];
    ghost var mid := fd.src;
    var got := fd.Op(In, b, 0, 1);
    extra := Got(got);
    assert b[..][..extra] == mid.incoming[..extra];
    if got.Err? || got.value == 0 {
      StopsStep(In, was, mid, k, 1);
      e := if got.Err? then got.error else WouldBlock;
    } else {
      ghost var k' := RunsStep(In, was, mid, k, 1);
      e := SysError(EOVERFLOW);
    }
  }

  /** The front of the buffer is the front of the stream, and `extra` bytes more are gone. */
  ghost predicate Filled(was: View, now: View, total: nat, extra: nat) {
    && total <= |was.data| && total + extra <= |was.src.incoming|
    && now.src.incoming == was.src.incoming[total + extra..]
    && now.data == was.src.incoming[..total] + was.data[total..]
    && now.moved == was.moved + was.src.incoming[..total + extra]
  }

  lemma FilledBy(was: View, mid: View, now: View, total: nat, extra: nat)
    requires Progress(In, was, mid, total) && now.data == mid.data && extra <= |mid.src.incoming|
    requires now.src.incoming == mid.src.incoming[extra..] && now.moved == mid.moved + mid.src.incoming[..extra]
    ensures Filled(was, now, total, extra)
  {
    var s := was.src.incoming;
    assert mid.data[..total] == s[..total];
    assert s[total..][extra..] == s[total + extra..] && s[..total] + s[total..][..extra] == s[..total + extra];
    assert was.moved + s[..total] + s[total..][..extra] == was.moved + (s[..total] + s[total..][..extra]);
  }

  lemma FilledEnd(was: View, now: View, total: nat, extra: nat)
    requires Filled(was, now, total, extra)
    ensures total <= |was.data| && |was.src.incoming| == total + extra + |now.src.incoming|
  {
  }

  /** The `try` block of `readAllFixed`, which only an exception leaves. */
  method FillOver(fd: Fd, buf: array<Byte>) returns (e: Exception, total: nat, ghost extra: nat)
    modifies fd, buf
    ensures Filled(old(fd.Look(buf)), fd.Look(buf), total, extra) && extra <= 1
    ensures if extra == 1 then total == buf.Length && e == SysError(EOVERFLOW) && exists k :: Runs(In, old(fd.src), fd.src, k)
            else Stops(In, old(fd.src), fd.src, e)
  {
    hide Progress, Filled, Runs, Stops;
    ghost var was := fd.Look(buf);
    var thrown, done;
    ghost var k;
    thrown, done, k := FillFixed(fd, buf);
    total, extra := done, 0;
    ghost var mid := fd.Look(buf);
    if thrown.Err? {
      e := thrown.error;
    } else {
      e, extra := Probe(fd, was.src, k);
    }
    FilledBy(was, mid, fd.Look(buf), done, extra);
  }

  /** What was read until something went wrong, `e`, or until there was more than fits; a part of an element
      is `Incomplete` in either case. */
  method ReadAllFixed(fd: Fd, align: nat, buf: array<Byte>)
    returns (r: Result<nat>, ghost total: nat, ghost extra: nat, ghost e: Exception)
    requires align > 0
    modifies fd, buf
    ensures Filled(old(fd.Look(buf)), fd.Look(buf), total, extra) && extra <= 1
    ensures extra == 1 ==> total == buf.Length && e == SysError(EOVERFLOW) && exists k :: Runs(In, old(fd.src), fd.src, k)
    ensures extra == 0 ==> Stops(In, old(fd.src), fd.src, e)
    ensures r == if !Whole(total, align) then Err(Incomplete) else if e == Eof then Ok(total) else Err(e)
    ensures AllReady(old(fd.src).script) ==>
      && total == Min(|old(fd.src).incoming|, buf.Length)
      && (if |old(fd.src).incoming| > buf.Length then extra == 1 else e == Eof)
  {
    hide AllReady, Quiet, Endless, Whole, Filled, Runs, Stops;
    ghost var was := fd.Look(buf);
    var thrown, done;
    thrown, done, extra := FillOver(fd, buf);
    total, e := done, thrown;
    FilledEnd(was, fd.Look(buf), total, extra);
    if extra == 0 { StopsMeans(In, was.src, fd.src, e); }
    if !Whole(done, align) {
      r := Err(Incomplete);
    } else if thrown == Eof {
      r := Ok(done);
    } else {
      r := Err(thrown);
    }
  }

  /** `verifyExact` */
  function VerifyExact(expected: nat, actual: nat): Result<()> {
    if expected != actual then Err(WouldBlock) else Ok(())
  }

  /** The stream has to end, `e`, with the buffer full. One that ends before is reported as `WouldBlock`. */
  method ReadAllExact(fd: Fd, buf: array<Byte>)
    returns (r: Result<()>, ghost total: nat, ghost extra: nat, ghost e: Exception)
    modifies fd, buf
    ensures Filled(old(fd.Look(buf)), fd.Look(buf), total, extra) && extra <= 1
    ensures extra == 1 ==> total == buf.Length && e == SysError(EOVERFLOW) && exists k :: Runs(In, old(fd.src), fd.src, k)
    ensures extra == 0 ==> Stops(In, old(fd.src), fd.src, e)
    ensures r == if e != Eof then Err(e) else if total == buf.Length then Ok(()) else Err(WouldBlock)
    ensures AllReady(old(fd.src).script) ==>
      var n := |old(fd.src).incoming|;
      r == if n == buf.Length then Ok(()) else if n < buf.Length then Err(WouldBlock) else Err(SysError(EOVERFLOW))
  {
    hide AllReady, Whole, Runs, Stops, Filled;
    ghost var was := fd.Look(buf);
    var got;
    got, total, extra, e := ReadAllFixed(fd, 1, buf);
    WholeOne(total);
    FilledEnd(was, fd.Look(buf), total, extra);
    r := if got.Err? then Err(got.error) else VerifyExact(buf.Length, got.value);
  }

  lemma WholeOne(n: nat)
    ensures Whole(n, 1)
  {
  }

  /** `read`: so many elements of the container have been filled. */
  method Read(fd: Fd, elem: nat, data: array<Byte>) returns (r: Result<nat>, ghost total: nat, ghost calls: nat)
    requires elem > 0
    modifies fd, data
    ensures Progress(In, old(fd.Look(data)), fd.Look(data), total)
    ensures Point(fd.src, total) == Reached(old(fd.src), In, data.Length, calls)
    ensures r.Ok? ==> r.value * elem == total && FirstMultiple(old(fd.src), In, data.Length, elem, calls)
    ensures r == Err(Incomplete) <==> !Whole(total, elem)
    ensures r.Err? && r != Err(Incomplete) ==> total == 0 && calls == 1 && r == Outcome(old(fd.src), In, data.Length)
    ensures r == Ok(0) ==> Outcome(old(fd.src), In, data.Length) == Ok(0)
  {
    hide Progress, FirstMultiple, Reached, Outcome;
    var got;
    got, total, calls := OpAligned(fd, In, elem, data);
    if got.Ok? {
      WholeMeans(got.value, elem, got.value / elem, got.value % elem);
      r := Ok(got.value / elem);
    } else {
      r := Err(got.error);
    }
  }

  /** Elements of one byte take one call. */
  lemma OneCall(s: Source, len: nat, calls: nat)
    requires FirstMultiple(s, In, len, 1, calls) || calls == 1
    ensures calls == 1 && Reached(s, In, len, calls) == Point(After(s, In, len), Got(Outcome(s, In, len)))
  {
    hide Outcome, After;
    WholeOne(Reached(s, In, len, 1).n);
    assert Reached(s, In, len, 1) == Then(Reached(s, In, len, 0), In, len);
  }

  lemma WholeMeans(n: nat, elem: nat, q: nat, m: nat)
    requires elem > 0 && q == n / elem && m == n % elem && Whole(n, elem)
    ensures q * elem == n
  {
  }
}
