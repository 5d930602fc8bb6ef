/** The requests of a ring by their identity: which request a handler was set on, which of them completes,
    and who is to be called for it. The `user_data` of `src/io_uring.cpp` does not come into it. */
module RingRequests {
  import opened RingHandlers

  /** Requests are numbered in the order in which `getSQE` hands them out. */
  type Id = nat

  datatype Done = Done(id: Id, res: int)

  /** The requests handed out, submitted and finished; the handler last set on every request there ever was;
      the calls that handlers are due. */
  datatype Requests = Requests(
    sqes: seq<Id>,
    inFlight: seq<Id>,
    done: seq<Done>,
    meant: seq<Ptr>,
    calls: seq<Call>)

  const NO_REQUESTS := Requests([], [], [], [], [])

  /** Submission takes all that has been handed out, so what has been submitted came before what has not. */
  ghost predicate InOrder(q: Requests) {
    && |q.sqes| <= |q.meant|
    && (forall j | 0 <= j < |q.sqes| :: q.sqes[j] == |q.meant| - |q.sqes| + j)
    && (forall j | 0 <= j < |q.inFlight| :: q.inFlight[j] < |q.meant| - |q.sqes|)
    && (forall j | 0 <= j < |q.done| :: q.done[j].id < |q.meant| - |q.sqes|)
  }

  ghost predicate Possible(q: Requests, s: Step) {
    match s
    case SetHandler(i, _) => i < |q.sqes|
    case KernelCompletes(k, _) => k < |q.inFlight|
    case _ => true
  }

  /** One call to the handler a request was meant for */
  function Answer(p: Ptr, res: int): seq<Call> {
    match p
    case Null => []
    case To(h) => [Call(h, res)]
  }

  function Answers(done: seq<Done>, meant: seq<Ptr>): seq<Call>
    requires forall j | 0 <= j < |done| :: done[j].id < |meant|
  {
    if done == [] then [] else Answer(meant[done[0].id], done[0].res) + Answers(done[1..], meant)
  }

  /** What a step does to the requests */
  ghost function Told(q: Requests, s: Step): Requests
    requires InOrder(q) && Possible(q, s)
  {
    match s
    case GetSqe => q.(sqes := q.sqes + [|q.meant|], meant := q.meant + [Null])
    case SetHandler(i, p) =>
      var k := q.sqes[i];
      var replaced := if q.meant[k] == p then [] else Answer(q.meant[k], -ECANCELED);
      q.(meant := q.meant[k := p], calls := q.calls + replaced)
    case Submit => q.(inFlight := q.inFlight + q.sqes, sqes := [])
    case CancelHandler => q.(inFlight := q.inFlight + q.sqes + [|q.meant|], sqes := [], meant := q.meant + [Null])
    case KernelCompletes(k, res) =>
      q.(inFlight := q.inFlight[..k] + q.inFlight[k + 1..], done := q.done + [Done(q.inFlight[k], res)])
    case Process => q.(calls := q.calls + Answers(q.done, q.meant), done := [])
  }

  /** The ring carries with every request the handler last set on it, and has made the calls that are due. */
  ghost predicate Carries(r: Ring, q: Requests) {
    && InOrder(q) && r.calls == q.calls
    && |r.sqes| == |q.sqes| && |r.inFlight| == |q.inFlight| && |r.cqes| == |q.done|
    && (forall j | 0 <= j < |r.sqes| :: r.sqes[j] == q.meant[q.sqes[j]])
    && (forall j | 0 <= j < |r.inFlight| :: r.inFlight[j] == q.meant[q.inFlight[j]])
    && (forall j | 0 <= j < |r.cqes| :: r.cqes[j] == Cqe(q.meant[q.done[j].id], q.done[j].res))
  }

  // ---------------------------------------------------------------- step by step

  lemma SetCarries(r: Ring, q: Requests, i: nat, p: Ptr)
    requires Inv(r) && Carries(r, q) && i < |r.sqes|
    ensures r.sqes[i].To? ==> r.sqes[i].h in r.handlers
    ensures Carries(HandlerSet(r, i, p), Told(q, SetHandler(i, p)))
  {
    hide Inv, Removed;
    SqeFound(r, i);
  }

  lemma CompletedCarries(r: Ring, q: Requests, k: nat, res: int)
    requires Carries(r, q) && k < |r.inFlight|
    ensures Carries(Completed(r, k, res), Told(q, KernelCompletes(k, res)))
  {
  }

  lemma {:induction false} AnswersAre(cs: seq<Cqe>, done: seq<Done>, meant: seq<Ptr>)
    requires |cs| == |done| && forall j | 0 <= j < |done| :: done[j].id < |meant|
    requires forall j | 0 <= j < |cs| :: cs[j] == Cqe(meant[done[j].id], done[j].res)
    ensures CallsFor(cs) == Answers(done, meant)
  {
    if cs != [] { AnswersAre(cs[1..], done[1..], meant); }
  }

  lemma ProcessCarries(r: Ring, q: Requests)
    requires Inv(r) && Carries(r, q)
    ensures Processable(r) && Carries(Processed(r), Told(q, Process))
  {
    hide Inv, Processed;
    ProcessedCalls(r);
    AnswersAre(r.cqes, q.done, q.meant);
  }

  lemma NextCarries(r: Ring, q: Requests, s: Step)
    requires Inv(r) && Enabled(r, s) && Carries(r, q)
    ensures Possible(q, s) && Carries(Next(r, s), Told(q, s))
  {
    hide Inv, Processed, HandlerSet, Completed;
    match s
    case SetHandler(i, p) => SetCarries(r, q, i, p);
    case KernelCompletes(k, res) => CompletedCarries(r, q, k, res);
    case Process => ProcessCarries(r, q);
    case _ =>
  }

  // ---------------------------------------------------------------- runs

  ghost predicate RequestRun(qs: seq<Requests>, steps: seq<Step>) {
    && |qs| == |steps| + 1 && qs[0] == NO_REQUESTS
    && forall i | 0 <= i < |steps| :: InOrder(qs[i]) && Possible(qs[i], steps[i]) ==> qs[i + 1] == Told(qs[i], steps[i])
  }

  /** Over every run each request calls the handler last set on it, with its own result, when its completion is
      processed, and no other; setting a handler calls the one it replaces on that request. */
  lemma {:induction false} RunCarries(rs: seq<Ring>, qs: seq<Requests>, steps: seq<Step>, n: nat)
    requires Run(rs, steps) && RequestRun(qs, steps) && n <= |steps|
    ensures Carries(rs[n], qs[n])
  {
    hide Inv, Told, Next, Enabled;
    if n > 0 {
      RunCarries(rs, qs, steps, n - 1);
      RunKeeps(rs, steps, n - 1);
      NextCarries(rs[n - 1], qs[n - 1], steps[n - 1]);
    }
  }
}
