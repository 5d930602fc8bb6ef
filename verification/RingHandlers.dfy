/** The completion handlers of `src/io_uring.cpp` as a state machine: the handler list on one side,
    the requests the kernel side holds on the other. */
module RingHandlers {

  /** The identity of a `CQEHandler` object. */
  type Handler = nat

  /** A `user_data` pointer. */
  datatype Ptr = Null | To(h: Handler)

  datatype Cqe = Cqe(userData: Ptr, res: int)

  /** A `handleCQE` call: whose, and with which result. */
  datatype Call = Call(h: Handler, res: int)

  const ECANCELED := 125

  /** The handler list, the SQEs handed out but not submitted, the requests in the kernel, the CQEs
      not yet seen; and the history: calls made, registrations asked for. */
  datatype Ring = Ring(
    handlers: seq<Handler>,
    sqes: seq<Ptr>,
    inFlight: seq<Ptr>,
    cqes: seq<Cqe>,
    calls: seq<Call>,
    registered: multiset<Handler>)

  const FRESH := Ring([], [], [], [], [], multiset{})

  // ---------------------------------------------------------------- removal by swap and pop

  function IndexOf(hs: seq<Handler>, h: Handler): (k: nat)
    requires h in hs
    ensures k < |hs| && hs[k] == h && forall i | 0 <= i < k :: hs[i] != h
  {
    if hs[0] == h then 0 else 1 + IndexOf(hs[1..], h)
  }

  /** `std::find`, `std::swap` with the back unless it is the back, `pop_back` */
  function Removed(hs: seq<Handler>, h: Handler): (r: seq<Handler>)
    requires h in hs
    ensures |r| + 1 == |hs|
  {
    var k, last := IndexOf(hs, h), |hs| - 1;
    hs[k := hs[last]][..last]
  }

  /** How often a handler is in the list. */
  function Listed(hs: seq<Handler>, h: Handler): nat {
    multiset(hs)[h]
  }

  lemma ListedSnoc(hs: seq<Handler>, g: Handler, h: Handler)
    ensures Listed(hs + [g], h) == Listed(hs, h) + Is(To(g), h)
  {
  }

  /** One occurrence goes, everything else stays, though not in place. */
  lemma RemovedOnce(hs: seq<Handler>, g: Handler, h: Handler)
    requires g in hs
    ensures Listed(hs, h) == Listed(Removed(hs, g), h) + Is(To(g), h)
  {
    hide IndexOf;
    var k, last := IndexOf(hs, g), |hs| - 1;
    var swapped := hs[k := hs[last]];
    assert hs == hs[..last] + [hs[last]];
    if k == last {
      assert swapped == hs && Removed(hs, g) == hs[..last];
    } else {
      assert Removed(hs, g) == hs[..last][k := hs[last]];
      assert multiset(hs[..last][k := hs[last]]) == multiset(hs[..last]) - multiset{g} + multiset{hs[last]};
      assert hs[..last][k] == g && g in multiset(hs[..last]);
    }
  }

  // ---------------------------------------------------------------- the steps

  /** `dropHandler` */
  function Dropped(r: Ring, p: Ptr, res: int): Ring
    requires p.To? ==> p.h in r.handlers
  {
    match p
    case Null => r
    case To(h) => r.(handlers := Removed(r.handlers, h), calls := r.calls + [Call(h, res)])
  }

  function GotSqe(r: Ring): Ring {
    r.(sqes := r.sqes + [Null])
  }

  /** `setHandler` on the SQE at index `i` */
  function HandlerSet(r: Ring, i: nat, p: Ptr): Ring
    requires i < |r.sqes| && (r.sqes[i].To? ==> r.sqes[i].h in r.handlers)
  {
    if r.sqes[i] == p then r
    else
      var d := Dropped(r, r.sqes[i], -ECANCELED);
      var e := if p.To? then d.(handlers := d.handlers + [p.h], registered := d.registered + multiset{p.h}) else d;
      e.(sqes := e.sqes[i := p])
  }

  function Submitted(r: Ring): Ring {
    r.(inFlight := r.inFlight + r.sqes, sqes := [])
  }

  /** The kernel finishes the request at index `k`. */
  function Completed(r: Ring, k: nat, res: int): Ring
    requires k < |r.inFlight|
  {
    r.(inFlight := r.inFlight[..k] + r.inFlight[k + 1..], cqes := r.cqes + [Cqe(r.inFlight[k], res)])
  }

  /** Every CQE finds its handler, also after the ones before it have been dropped. */
  ghost predicate Processable(r: Ring)
    decreases |r.cqes|
  {
    r.cqes == [] ||
    (&& (r.cqes[0].userData.To? ==> r.cqes[0].userData.h in r.handlers)
     && Processable(Reaped(r)))
  }

  /** `process` */
  ghost function Processed(r: Ring): (q: Ring)
    requires Processable(r)
    ensures q.cqes == []
    decreases |r.cqes|
  {
    if r.cqes == [] then r
    else Processed(Reaped(r))
  }

  /** `cancelHandler`: a request without a handler of its own, and everything is submitted. */
  function Canceled(r: Ring): Ring {
    Submitted(GotSqe(r))
  }

  /** The destructor: the queue goes away, and every handler left is told so. */
  function Destroyed(r: Ring): Ring {
    Ring([], [], [], [], r.calls + CancelAll(r.handlers), r.registered)
  }

  function CancelAll(hs: seq<Handler>): (cs: seq<Call>)
    ensures |cs| == |hs|
  {
    seq(|hs|, i requires 0 <= i < |hs| => Call(hs[i], -ECANCELED))
  }

  // ---------------------------------------------------------------- the invariant

  /** 1 if the pointer is to this handler. */
  function Is(p: Ptr, h: Handler): nat {
    if p == To(h) then 1 else 0
  }

  /** How many of the pointers are to this handler. */
  ghost function Held(ps: seq<Ptr>, h: Handler): nat {
    if ps == [] then 0 else Held(ps[..|ps| - 1], h) + Is(ps[|ps| - 1], h)
  }

  ghost function UserData(cs: seq<Cqe>): (ps: seq<Ptr>)
    ensures |ps| == |cs|
  {
    seq(|cs|, i requires 0 <= i < |cs| => cs[i].userData)
  }

  /** How often a handler has been called. */
  ghost function Called(cs: seq<Call>, h: Handler): nat {
    if cs == [] then 0 else Called(cs[..|cs| - 1], h) + Is(To(cs[|cs| - 1].h), h)
  }

  /** How many requests with this handler have not come back. */
  ghost function Pending(r: Ring, h: Handler): nat {
    Held(r.sqes, h) + Held(r.inFlight, h) + Held(UserData(r.cqes), h)
  }

  /** The list holds a handler as often as there are requests with it that have not come back, and
      each of its registrations has either been answered by one call or is still in the list. */
  ghost predicate Balanced(r: Ring, h: Handler) {
    && Listed(r.handlers, h) == Pending(r, h)
    && r.registered[h] == Called(r.calls, h) + Listed(r.handlers, h)
  }

  ghost predicate Inv(r: Ring) {
    forall h :: Balanced(r, h)
  }

  lemma HeldSnoc(ps: seq<Ptr>, p: Ptr, h: Handler)
    ensures Held(ps + [p], h) == Held(ps, h) + Is(p, h)
  {
    assert (ps + [p])[..|ps|] == ps;
  }

  lemma {:induction false} HeldAppend(a: seq<Ptr>, b: seq<Ptr>, h: Handler)
    ensures Held(a + b, h) == Held(a, h) + Held(b, h)
  {
    if b == [] {
      assert a + b == a;
    } else {
      var n := |b| - 1;
      HeldAppend(a, b[..n], h);
      assert a + b == (a + b[..n]) + [b[n]];
      HeldSnoc(a + b[..n], b[n], h);
    }
  }

  lemma HeldSplit(ps: seq<Ptr>, k: nat, h: Handler)
    requires k < |ps|
    ensures Held(ps, h) == Held(ps[..k], h) + Is(ps[k], h) + Held(ps[k + 1..], h)
  {
    hide Held;
    assert ps == (ps[..k] + [ps[k]]) + ps[k + 1..];
    HeldAppend(ps[..k] + [ps[k]], ps[k + 1..], h);
    HeldSnoc(ps[..k], ps[k], h);
  }

  lemma HeldUpdate(ps: seq<Ptr>, k: nat, p: Ptr, h: Handler)
    requires k < |ps|
    ensures Held(ps[k := p], h) + Is(ps[k], h) == Held(ps, h) + Is(p, h)
  {
    hide Held;
    HeldSplit(ps, k, h);
    HeldSplit(ps[k := p], k, h);
    assert ps[k := p][..k] == ps[..k] && ps[k := p][k + 1..] == ps[k + 1..];
  }

  lemma CalledSnoc(cs: seq<Call>, c: Call, h: Handler)
    ensures Called(cs + [c], h) == Called(cs, h) + Is(To(c.h), h)
  {
    assert (cs + [c])[..|cs|] == cs;
  }

  lemma {:induction false} CalledAppend(a: seq<Call>, b: seq<Call>, h: Handler)
    ensures Called(a + b, h) == Called(a, h) + Called(b, h)
  {
    if b == [] {
      assert a + b == a;
    } else {
      var n := |b| - 1;
      CalledAppend(a, b[..n], h);
      assert a + b == (a + b[..n]) + [b[n]];
      CalledSnoc(a + b[..n], b[n], h);
    }
  }

  /** Dropping a handler moves it from the list to the calls and touches nothing else. */
  lemma DroppedMoves(r: Ring, p: Ptr, res: int, h: Handler)
    requires p.To? ==> p.h in r.handlers
    ensures var d := Dropped(r, p, res);
            && Listed(r.handlers, h) == Listed(d.handlers, h) + Is(p, h)
            && Called(d.calls, h) == Called(r.calls, h) + Is(p, h)
            && d == r.(handlers := d.handlers, calls := d.calls)
            && d.calls == r.calls + if p.To? then [Call(p.h, res)] else []
  {
    hide Listed, Removed, Called;
    if p.To? {
      RemovedOnce(r.handlers, p.h, h);
      CalledSnoc(r.calls, Call(p.h, res), h);
    }
  }

  /** Under the invariant `dropHandler` finds what it is asked for. */
  lemma Found(r: Ring, h: Handler)
    requires Inv(r) && Pending(r, h) > 0
    ensures h in r.handlers
  {
    assert Balanced(r, h);
  }

  lemma SqeFound(r: Ring, i: nat)
    requires Inv(r) && i < |r.sqes|
    ensures r.sqes[i].To? ==> r.sqes[i].h in r.handlers
  {
    hide Inv;
    if r.sqes[i].To? {
      HeldSplit(r.sqes, i, r.sqes[i].h);
      Found(r, r.sqes[i].h);
    }
  }

  lemma CqeFound(r: Ring)
    requires Inv(r) && r.cqes != []
    ensures r.cqes[0].userData.To? ==> r.cqes[0].userData.h in r.handlers
  {
    hide Inv;
    if r.cqes[0].userData.To? {
      HeldSplit(UserData(r.cqes), 0, r.cqes[0].userData.h);
      Found(r, r.cqes[0].userData.h);
    }
  }

  lemma GotSqeKeeps(r: Ring)
    requires Inv(r)
    ensures Inv(GotSqe(r))
  {
    hide Held, Called, Listed;
    forall h ensures Balanced(GotSqe(r), h) {
      assert Balanced(r, h);
      HeldSnoc(r.sqes, Null, h);
    }
  }

  lemma HandlerSetKeeps(r: Ring, i: nat, p: Ptr)
    requires Inv(r) && i < |r.sqes|
    ensures r.sqes[i].To? ==> r.sqes[i].h in r.handlers
    ensures Inv(HandlerSet(r, i, p))
  {
    hide Held, Called, Dropped, Listed;
    SqeFound(r, i);
    if r.sqes[i] != p {
      forall h ensures Balanced(HandlerSet(r, i, p), h) {
        assert Balanced(r, h);
        DroppedMoves(r, r.sqes[i], -ECANCELED, h);
        HeldUpdate(r.sqes, i, p, h);
        if p.To? { ListedSnoc(Dropped(r, r.sqes[i], -ECANCELED).handlers, p.h, h); }
      }
    }
  }

  lemma HeldOfNone()
    ensures forall h :: Held([], h) == 0
  {
  }

  lemma SubmittedKeeps(r: Ring)
    requires Inv(r)
    ensures Inv(Submitted(r))
  {
    hide Held, Called, Listed;
    HeldOfNone();
    forall h ensures Balanced(Submitted(r), h) {
      assert Balanced(r, h);
      HeldAppend(r.inFlight, r.sqes, h);
    }
  }

  lemma CompletedKeeps(r: Ring, k: nat, res: int)
    requires Inv(r) && k < |r.inFlight|
    ensures Inv(Completed(r, k, res))
  {
    hide Held, Called, Listed;
    forall h ensures Balanced(Completed(r, k, res), h) {
      assert Balanced(r, h);
      HeldSplit(r.inFlight, k, h);
      HeldAppend(r.inFlight[..k], r.inFlight[k + 1..], h);
      assert UserData(Completed(r, k, res).cqes) == UserData(r.cqes) + [r.inFlight[k]];
      HeldSnoc(UserData(r.cqes), r.inFlight[k], h);
    }
  }

  /** One turn of the loop in `process`. */
  ghost function Reaped(r: Ring): Ring
    requires r.cqes != [] && (r.cqes[0].userData.To? ==> r.cqes[0].userData.h in r.handlers)
  {
    Dropped(r, r.cqes[0].userData, r.cqes[0].res).(cqes := r.cqes[1..])
  }

  lemma ReapedKeeps(r: Ring)
    requires Inv(r) && r.cqes != []
    ensures r.cqes[0].userData.To? ==> r.cqes[0].userData.h in r.handlers
    ensures Inv(Reaped(r))
  {
    CqeFound(r);
    forall h ensures Balanced(Reaped(r), h) {
      hide Held, Called, Dropped, Listed;
      assert Balanced(r, h);
      var ps := UserData(r.cqes);
      DroppedMoves(r, ps[0], r.cqes[0].res, h);
      HeldSplit(ps, 0, h);
      HeldNone(ps[..0], h);
      assert ps[1..] == UserData(r.cqes[1..]);
    }
  }

  lemma HeldNone(ps: seq<Ptr>, h: Handler)
    requires ps == []
    ensures Held(ps, h) == 0
  {
  }

  lemma {:induction false} ProcessedKeeps(r: Ring)
    requires Inv(r)
    ensures Processable(r) && Inv(Processed(r))
    decreases |r.cqes|
  {
    if r.cqes != [] {
      ReapedKeeps(r);
      ProcessedKeeps(Reaped(r));
    }
  }

  /** The calls that the CQEs ask for, in their order. */
  ghost function CallsFor(cs: seq<Cqe>): seq<Call> {
    if cs == [] then [] else CallFor(cs[0]) + CallsFor(cs[1..])
  }

  ghost function CallFor(c: Cqe): seq<Call> {
    if c.userData.To? then [Call(c.userData.h, c.res)] else []
  }

  /** `process` calls the handler of every CQE once, in order, with the kernel's result, and leaves
      what has not completed alone. */
  lemma {:induction false} ProcessedCalls(r: Ring)
    requires Inv(r)
    ensures Processable(r)
    ensures Processed(r).calls == r.calls + CallsFor(r.cqes)
    ensures Processed(r).sqes == r.sqes && Processed(r).inFlight == r.inFlight
    ensures Processed(r).registered == r.registered
    decreases |r.cqes|
  {
    ProcessedKeeps(r);
    if r.cqes != [] {
      hide Inv, Reaped, CallFor;
      ReapedKeeps(r);
      ReapedCalls(r);
      ProcessedCalls(Reaped(r));
      assert r.calls + CallFor(r.cqes[0]) + CallsFor(r.cqes[1..]) == r.calls + (CallFor(r.cqes[0]) + CallsFor(r.cqes[1..]));
    } else {
      assert r.calls + [] == r.calls;
    }
  }

  lemma ReapedCalls(r: Ring)
    requires r.cqes != [] && (r.cqes[0].userData.To? ==> r.cqes[0].userData.h in r.handlers)
    ensures var q := Reaped(r);
            && q.calls == r.calls + CallFor(r.cqes[0]) && q.cqes == r.cqes[1..]
            && q.sqes == r.sqes && q.inFlight == r.inFlight && q.registered == r.registered
  {
    hide Removed;
  }

  lemma {:induction false} CancelAllCalls(hs: seq<Handler>, h: Handler)
    ensures Called(CancelAll(hs), h) == Listed(hs, h)
  {
    if hs != [] {
      var n := |hs| - 1;
      CancelAllCalls(hs[..n], h);
      assert CancelAll(hs)[..n] == CancelAll(hs[..n]);
      assert hs == hs[..n] + [hs[n]];
      ListedSnoc(hs[..n], hs[n], h);
    }
  }

  // ---------------------------------------------------------------- runs

  /** What a user of the ring and the kernel may do. */
  datatype Step =
    | GetSqe
    | SetHandler(i: nat, p: Ptr)
    | Submit
    | CancelHandler
    | KernelCompletes(k: nat, res: int)
    | Process

  /** The source asks for an SQE of this ring; the kernel can finish only what it holds. */
  ghost predicate Enabled(r: Ring, s: Step) {
    match s
    case SetHandler(i, _) => i < |r.sqes|
    case KernelCompletes(k, _) => k < |r.inFlight|
    case _ => true
  }

  ghost function Next(r: Ring, s: Step): Ring
    requires Inv(r) && Enabled(r, s)
  {
    match s
    case GetSqe => GotSqe(r)
    case SetHandler(i, p) => SqeFound(r, i); HandlerSet(r, i, p)
    case Submit => Submitted(r)
    case CancelHandler => Canceled(r)
    case KernelCompletes(k, res) => Completed(r, k, res)
    case Process => ProcessedKeeps(r); Processed(r)
  }

  lemma NextKeeps(r: Ring, s: Step)
    requires Inv(r) && Enabled(r, s)
    ensures Inv(Next(r, s))
  {
    hide Inv, HandlerSet, GotSqe, Submitted, Completed, Processed;
    match s
    case GetSqe => GotSqeKeeps(r);
    case SetHandler(i, p) => HandlerSetKeeps(r, i, p);
    case Submit => SubmittedKeeps(r);
    case CancelHandler => GotSqeKeeps(r); SubmittedKeeps(GotSqe(r));
    case KernelCompletes(k, res) => CompletedKeeps(r, k, res);
    case Process => ProcessedKeeps(r);
  }

  /** The states of a run from a fresh ring. A step is defined where the invariant holds, which
      `RunKeeps` shows to be everywhere. */
  ghost predicate Run(rs: seq<Ring>, steps: seq<Step>) {
    && |rs| == |steps| + 1 && rs[0] == FRESH
    && forall i | 0 <= i < |steps| :: Inv(rs[i]) ==> Enabled(rs[i], steps[i]) && rs[i + 1] == Next(rs[i], steps[i])
  }

  /** Over every run the list is exactly the set of requests that have not come back. */
  lemma {:induction false} RunKeeps(rs: seq<Ring>, steps: seq<Step>, n: nat)
    requires Run(rs, steps) && n <= |steps|
    ensures Inv(rs[n])
  {
    if n == 0 {
      FreshBalanced();
    } else {
      RunKeeps(rs, steps, n - 1);
      NextKeeps(rs[n - 1], steps[n - 1]);
    }
  }

  lemma FreshBalanced()
    ensures Inv(FRESH)
  {
    forall h ensures Balanced(FRESH, h) {
      HeldNone(UserData([]), h);
    }
  }

  /** Over every run that ends in the destructor each registration has been answered by exactly one
      call: on completion, on replacement or by the destructor. */
  lemma EachCalledOnce(rs: seq<Ring>, steps: seq<Step>, h: Handler)
    requires Run(rs, steps)
    ensures var last := Destroyed(rs[|steps|]);
            Called(last.calls, h) == last.registered[h] && last.registered == rs[|steps|].registered
  {
    RunKeeps(rs, steps, |steps|);
    var r := rs[|steps|];
    assert Balanced(r, h);
    CalledAppend(r.calls, CancelAll(r.handlers), h);
    CancelAllCalls(r.handlers, h);
  }
}
