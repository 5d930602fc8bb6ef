/** The handles of `handle/managed.hpp` and `handle/copyable.hpp` on values: an object that may be owned,
    the data beside it, and callbacks that drop an object or make a reference to one. The callbacks may be
    any functions, and may change the data. */
module HandleSpec {

  /** `T` and `std::tuple<As...>` */
  type Value(==, !new)
  type Data(!new)

  datatype Option<+T> = None | Some(value: T)

  datatype Handle = Handle(maybe: Option<Value>, data: Data)

  /** `Drop` and `Ref` take the data by reference. */
  datatype Callbacks = Callbacks(drop: (Value, Data) -> Data, ref: (Value, Data) -> (Value, Data))

  /** One run of the drop callback */
  datatype Drop = Drop(value: Value, data: Data)

  /** What an operation makes of a handle: its new state, the drops it runs, the references it makes. */
  datatype Change = Change(h: Handle, drops: seq<Drop>, made: seq<Value>)

  // ---------------------------------------------------------------- operations on one handle

  /** `reset(optional<T>&&)`: `maybeDrop`, then the new value */
  function ResetTo(c: Callbacks, h: Handle, v: Option<Value>): Change {
    match h.maybe
    case None => Change(Handle(v, h.data), [], [])
    case Some(t) => Change(Handle(v, c.drop(t, h.data)), [Drop(t, h.data)], [])
  }

  /** `reset(const optional<T>&)`: the reference is made first, and what it does to the data the drop sees. */
  function ResetRef(c: Callbacks, h: Handle, v: Option<Value>): Change {
    match v
    case None => ResetTo(c, h, None)
    case Some(t) =>
      var made := c.ref(t, h.data);
      ResetTo(c, Handle(h.maybe, made.1), Some(made.0)).(made := [made.0])
  }

  /** `operator=(HandleF&&)`, on the target */
  function MovedInto(c: Callbacks, dst: Handle, src: Handle): Change {
    var r := ResetTo(c, dst, src.maybe);
    Change(Handle(r.h.maybe, src.data), r.drops, [])
  }

  /** `operator=(const HandleF&)` */
  function CopiedInto(c: Callbacks, dst: Handle, src: Handle): Change {
    var dropped := ResetTo(c, dst, None);
    var r := ResetRef(c, Handle(None, src.data), src.maybe);
    Change(r.h, dropped.drops, r.made)
  }

  /** What a moved-from or released handle keeps */
  function Emptied(h: Handle): Handle {
    Handle(None, h.data)
  }

  // ---------------------------------------------------------------- several handles

  type Id = nat

  /** The handles there are, every object ever owned, and where those went that are held no more. */
  datatype World = World(handles: map<Id, Handle>, owned: multiset<Value>, drops: seq<Drop>, released: multiset<Value>)

  datatype Op =
    | Own(i: Id, v: Option<Value>, data: Data)
    | Refer(i: Id, v: Option<Value>, data: Data)
    | MoveConstruct(i: Id, from: Id)
    | CopyConstruct(i: Id, from: Id)
    | MoveAssign(i: Id, from: Id)
    | CopyAssign(i: Id, from: Id)
    | Reset(i: Id, v: Option<Value>)
    | ResetCopy(i: Id, v: Option<Value>)
    | Release(i: Id)
    | SetData(i: Id, data: Data)
    | Destroy(i: Id)

  ghost predicate Enabled(w: World, op: Op) {
    match op
    case Own(i, _, _) => i !in w.handles
    case Refer(i, _, _) => i !in w.handles
    case MoveConstruct(i, from) => i !in w.handles && from in w.handles
    case CopyConstruct(i, from) => i !in w.handles && from in w.handles
    case MoveAssign(i, from) => i in w.handles && from in w.handles
    case CopyAssign(i, from) => i in w.handles && from in w.handles
    case Reset(i, _) => i in w.handles
    case ResetCopy(i, _) => i in w.handles
    case Release(i) => i in w.handles
    case SetData(i, _) => i in w.handles
    case Destroy(i) => i in w.handles
  }

  function Bag(v: Option<Value>): multiset<Value> {
    match v
    case None => multiset{}
    case Some(t) => multiset{t}
  }

  /** A handle is, or becomes, what an operation has made of it; `given` was moved in from outside. */
  function Put(w: World, i: Id, ch: Change, given: Option<Value>): World {
    World(w.handles[i := ch.h], w.owned + Bag(given) + multiset(ch.made), w.drops + ch.drops, w.released)
  }

  /** A handle has been emptied for another. */
  function Take(w: World, from: Id): World
    requires from in w.handles
  {
    w.(handles := w.handles[from := Emptied(w.handles[from])])
  }

  function Next(c: Callbacks, w: World, op: Op): World
    requires Enabled(w, op)
  {
    match op
    case Own(i, v, data) => Put(w, i, Change(Handle(v, data), [], []), v)
    case Refer(i, v, data) => Put(w, i, ResetRef(c, Handle(None, data), v), None)
    case MoveConstruct(i, from) => Put(Take(w, from), i, Change(w.handles[from], [], []), None)
    case CopyConstruct(i, from) => Put(w, i, ResetRef(c, Emptied(w.handles[from]), w.handles[from].maybe), None)
    case MoveAssign(i, from) =>
      if i == from then w else Put(Take(w, from), i, MovedInto(c, w.handles[i], w.handles[from]), None)
    case CopyAssign(i, from) =>
      if i == from then w else Put(w, i, CopiedInto(c, w.handles[i], w.handles[from]), None)
    case Reset(i, v) => Put(w, i, ResetTo(c, w.handles[i], v), v)
    case ResetCopy(i, v) => Put(w, i, ResetRef(c, w.handles[i], v), None)
    case Release(i) => Take(w, i).(released := w.released + Bag(w.handles[i].maybe))
    case SetData(i, data) => w.(handles := w.handles[i := Handle(w.handles[i].maybe, data)])
    case Destroy(i) =>
      var v := Put(w, i, ResetTo(c, w.handles[i], None), None);
      v.(handles := v.handles - {i})
  }

  // ---------------------------------------------------------------- conservation

  ghost function Holders(hs: map<Id, Handle>, t: Value): set<Id> {
    set i | i in hs && hs[i].maybe == Some(t)
  }

  function Dropped(drops: seq<Drop>, t: Value): nat {
    if drops == [] then 0
    else Dropped(drops[..|drops| - 1], t) + if drops[|drops| - 1].value == t then 1 else 0
  }

  /** How many of the objects owned so far are unaccounted for. */
  ghost function Missing(w: World, t: Value): int {
    w.owned[t] - Dropped(w.drops, t) - w.released[t] - |Holders(w.handles, t)|
  }

  /** Every object that was ever owned is held by one handle, has been released, or has been dropped. */
  ghost predicate Conserved(w: World) {
    forall t: Value :: Missing(w, t) == 0
  }

  function Held(h: Handle, t: Value): nat {
    Bag(h.maybe)[t]
  }

  lemma HoldersPut(hs: map<Id, Handle>, i: Id, h: Handle, t: Value)
    ensures |Holders(hs[i := h], t)| == |Holders(hs, t)| - (if i in hs then Held(hs[i], t) else 0) + Held(h, t)
  {
    var was, now := Holders(hs, t), Holders(hs[i := h], t);
    if h.maybe == Some(t) {
      assert now == was + {i};
    } else {
      assert now == was - {i};
    }
  }

  lemma HoldersGone(hs: map<Id, Handle>, i: Id, t: Value)
    requires i in hs
    ensures |Holders(hs - {i}, t)| == |Holders(hs, t)| - Held(hs[i], t)
  {
    assert Holders(hs - {i}, t) == Holders(hs, t) - {i};
  }

  lemma {:induction false} DroppedAppend(a: seq<Drop>, b: seq<Drop>, t: Value)
    ensures Dropped(a + b, t) == Dropped(a, t) + Dropped(b, t)
  {
    if b == [] {
      assert a + b == a;
    } else {
      assert (a + b)[..|a + b| - 1] == a + b[..|b| - 1];
      DroppedAppend(a, b[..|b| - 1], t);
    }
  }

  /** What an operation takes in it keeps or drops. */
  lemma ResetBalance(c: Callbacks, h: Handle, v: Option<Value>, t: Value)
    ensures var ch := ResetTo(c, h, v); Held(ch.h, t) + Dropped(ch.drops, t) == Held(h, t) + Bag(v)[t]
    ensures ResetTo(c, h, v).made == []
  {
    if h.maybe.Some? {
      var d := Drop(h.maybe.value, h.data);
      assert [d][..0] == [];
    }
  }

  lemma RefBalance(c: Callbacks, h: Handle, v: Option<Value>, t: Value)
    ensures var ch := ResetRef(c, h, v);
      Held(ch.h, t) + Dropped(ch.drops, t) == Held(h, t) + multiset(ch.made)[t]
  {
    if v.Some? {
      var made := c.ref(v.value, h.data);
      ResetBalance(c, Handle(h.maybe, made.1), Some(made.0), t);
    } else {
      ResetBalance(c, h, None, t);
    }
  }

  lemma PutBalance(w: World, i: Id, ch: Change, given: Option<Value>, t: Value)
    ensures Missing(Put(w, i, ch, given), t)
      == Missing(w, t) + Bag(given)[t] + multiset(ch.made)[t] + (if i in w.handles then Held(w.handles[i], t) else 0)
         - Held(ch.h, t) - Dropped(ch.drops, t)
  {
    HoldersPut(w.handles, i, ch.h, t);
    DroppedAppend(w.drops, ch.drops, t);
  }

  lemma TakeBalance(w: World, from: Id, t: Value)
    requires from in w.handles
    ensures Missing(Take(w, from), t) == Missing(w, t) + Held(w.handles[from], t)
  {
    HoldersPut(w.handles, from, Emptied(w.handles[from]), t);
  }

  lemma NextBalance(c: Callbacks, w: World, op: Op, t: Value)
    requires Enabled(w, op)
    ensures Missing(Next(c, w, op), t) == Missing(w, t)
  {
    hide Missing, ResetTo, ResetRef, Dropped, Put, Take;
    match op
    case Own(i, v, data) => OwnBalance(c, w, op, t);
    case Refer(i, v, data) =>
      RefBalance(c, Handle(None, data), v, t);
      PutBalance(w, i, ResetRef(c, Handle(None, data), v), None, t);
    case MoveConstruct(i, from) => MoveBalance(c, w, op, t);
    case CopyConstruct(i, from) =>
      var src := w.handles[from];
      RefBalance(c, Emptied(src), src.maybe, t);
      PutBalance(w, i, ResetRef(c, Emptied(src), src.maybe), None, t);
    case MoveAssign(i, from) => MoveAssignBalance(c, w, op, t);
    case CopyAssign(i, from) => CopyAssignBalance(c, w, op, t);
    case Reset(i, v) =>
      ResetBalance(c, w.handles[i], v, t);
      PutBalance(w, i, ResetTo(c, w.handles[i], v), v, t);
    case ResetCopy(i, v) =>
      RefBalance(c, w.handles[i], v, t);
      PutBalance(w, i, ResetRef(c, w.handles[i], v), None, t);
    case Release(i) => ReleaseBalance(c, w, op, t);
    case SetData(i, data) => SetDataBalance(c, w, op, t);
    case Destroy(i) => DestroyBalance(c, w, i, t);
  }

  lemma OwnBalance(c: Callbacks, w: World, op: Op, t: Value)
    requires op.Own? && Enabled(w, op)
    ensures Missing(Next(c, w, op), t) == Missing(w, t)
  {
    PutBalance(w, op.i, Change(Handle(op.v, op.data), [], []), op.v, t);
  }

  lemma MoveBalance(c: Callbacks, w: World, op: Op, t: Value)
    requires op.MoveConstruct? && Enabled(w, op)
    ensures Missing(Next(c, w, op), t) == Missing(w, t)
  {
    TakeBalance(w, op.from, t);
    PutBalance(Take(w, op.from), op.i, Change(w.handles[op.from], [], []), None, t);
  }

  lemma MoveAssignBalance(c: Callbacks, w: World, op: Op, t: Value)
    requires op.MoveAssign? && Enabled(w, op)
    ensures Missing(Next(c, w, op), t) == Missing(w, t)
  {
    hide Missing, ResetTo, Dropped;
    if op.i != op.from {
      var dst, src := w.handles[op.i], w.handles[op.from];
      TakeBalance(w, op.from, t);
      ResetBalance(c, dst, src.maybe, t);
      PutBalance(Take(w, op.from), op.i, MovedInto(c, dst, src), None, t);
    }
  }

  lemma CopyAssignBalance(c: Callbacks, w: World, op: Op, t: Value)
    requires op.CopyAssign? && Enabled(w, op)
    ensures Missing(Next(c, w, op), t) == Missing(w, t)
  {
    hide Missing, ResetRef, Dropped;
    if op.i != op.from {
      var dst, src := w.handles[op.i], w.handles[op.from];
      ResetBalance(c, dst, None, t);
      RefBalance(c, Emptied(src), src.maybe, t);
      NoDrop(c, src.data, src.maybe, t);
      PutBalance(w, op.i, CopiedInto(c, dst, src), None, t);
    }
  }

  /** A reset of an empty handle drops nothing. */
  lemma NoDrop(c: Callbacks, data: Data, v: Option<Value>, t: Value)
    ensures ResetRef(c, Handle(None, data), v).drops == [] && Dropped([], t) == 0
  {
  }

  lemma ReleaseBalance(c: Callbacks, w: World, op: Op, t: Value)
    requires op.Release? && Enabled(w, op)
    ensures Missing(Next(c, w, op), t) == Missing(w, t)
  {
    TakeBalance(w, op.i, t);
  }

  lemma SetDataBalance(c: Callbacks, w: World, op: Op, t: Value)
    requires op.SetData? && Enabled(w, op)
    ensures Missing(Next(c, w, op), t) == Missing(w, t)
  {
    HoldersPut(w.handles, op.i, Handle(w.handles[op.i].maybe, op.data), t);
  }

  lemma GoneBalance(v: World, i: Id, t: Value)
    requires i in v.handles
    ensures Missing(v.(handles := v.handles - {i}), t) == Missing(v, t) + Held(v.handles[i], t)
  {
    HoldersGone(v.handles, i, t);
  }

  lemma DestroyBalance(c: Callbacks, w: World, i: Id, t: Value)
    requires i in w.handles
    ensures Missing(Next(c, w, Destroy(i)), t) == Missing(w, t)
  {
    hide Missing, Dropped, Put;
    var ch := ResetTo(c, w.handles[i], None);
    var v := Put(w, i, ch, None);
    ResetBalance(c, w.handles[i], None, t);
    PutBalance(w, i, ch, None, t);
    PutHandles(w, i, ch, None);
    GoneBalance(v, i, t);
  }

  lemma PutHandles(w: World, i: Id, ch: Change, given: Option<Value>)
    ensures Put(w, i, ch, given).handles == w.handles[i := ch.h]
  {
  }

  // ---------------------------------------------------------------- runs

  const NONE := World(map[], multiset{}, [], multiset{})

  ghost predicate Run(c: Callbacks, ws: seq<World>, ops: seq<Op>) {
    && |ws| == |ops| + 1 && ws[0] == NONE
    && forall i | 0 <= i < |ops| :: Enabled(ws[i], ops[i]) && ws[i + 1] == Next(c, ws[i], ops[i])
  }

  /** Over every run no object is lost, and none is dropped twice. */
  lemma {:induction false} RunConserves(c: Callbacks, ws: seq<World>, ops: seq<Op>, n: nat)
    requires Run(c, ws, ops) && n <= |ops|
    ensures Conserved(ws[n])
  {
    hide Missing, Next;
    if n == 0 {
      forall t: Value ensures Missing(ws[0], t) == 0 { NothingMissing(t); }
    } else {
      RunConserves(c, ws, ops, n - 1);
      forall t: Value ensures Missing(ws[n], t) == 0 { NextBalance(c, ws[n - 1], ops[n - 1], t); }
    }
  }

  lemma NothingMissing(t: Value)
    ensures Missing(NONE, t) == 0
  {
    assert Holders(map[], t) == {};
  }

  /** When there are no handles any more, every object has been released or dropped, once for each time
      it was owned. */
  lemma AllAccounted(c: Callbacks, ws: seq<World>, ops: seq<Op>, t: Value)
    requires Run(c, ws, ops) && ws[|ops|].handles == map[]
    ensures ws[|ops|].owned[t] == Dropped(ws[|ops|].drops, t) + ws[|ops|].released[t]
  {
    RunConserves(c, ws, ops, |ops|);
    assert Missing(ws[|ops|], t) == 0;
    assert Holders(map[], t) == {};
  }

  // ---------------------------------------------------------------- what a drop sees

  /** Assignments from another handle, resets and the destructor replace the object of the handle they are
      called on. */
  predicate Replaces(op: Op) {
    match op
    case MoveAssign(i, from) => i != from
    case CopyAssign(i, from) => i != from
    case Reset(_, _) => true
    case ResetCopy(_, _) => true
    case Destroy(_) => true
    case _ => false
  }

  /** The data a drop of this operation sees: that beside the object, as the reference has left it where
      one is made first. */
  function Beside(c: Callbacks, h: Handle, op: Op): Data {
    if op.ResetCopy? && op.v.Some? then c.ref(op.v.value, h.data).1 else h.data
  }

  /** An operation that replaces an object drops it, once, with the data beside it, and no other does. */
  lemma DropsArePaired(c: Callbacks, w: World, op: Op)
    requires Enabled(w, op)
    ensures var h := if op.i in w.handles then w.handles[op.i].maybe else None;
      Next(c, w, op).drops
      == w.drops + if Replaces(op) && h.Some? then [Drop(h.value, Beside(c, w.handles[op.i], op))] else []
  {
    hide ResetRef;
    match op
    case Refer(i, v, data) => NoDropBy(c, data, v);
    case CopyConstruct(i, from) => NoDropBy(c, w.handles[from].data, w.handles[from].maybe);
    case CopyAssign(i, from) =>
    case ResetCopy(i, v) => RefDrops(c, w.handles[i], v);
    case _ =>
  }

  lemma NoDropBy(c: Callbacks, data: Data, v: Option<Value>)
    ensures ResetRef(c, Handle(None, data), v).drops == []
  {
  }

  lemma RefDrops(c: Callbacks, h: Handle, v: Option<Value>)
    ensures ResetRef(c, h, v).drops
      == if h.maybe.Some? then [Drop(h.maybe.value, if v.Some? then c.ref(v.value, h.data).1 else h.data)] else []
  {
  }

  // ---------------------------------------------------------------- what stays beside an object

  /** Object and data go together: a move takes both, and leaves the data of the other handle. */
  lemma MovedTogether(c: Callbacks, w: World, i: Id, from: Id)
    requires from in w.handles && i != from
    ensures i in w.handles ==> var now := Next(c, w, MoveAssign(i, from)).handles;
      now[i] == w.handles[from] && now[from] == Handle(None, w.handles[from].data)
    ensures i !in w.handles ==> var now := Next(c, w, MoveConstruct(i, from)).handles;
      now[i] == w.handles[from] && now[from] == Handle(None, w.handles[from].data)
  {
  }

  /** What a copy of a handle is: what the reference callback makes of the object and the data. */
  function Referred(c: Callbacks, h: Handle): Handle {
    match h.maybe
    case None => h
    case Some(t) => var made := c.ref(t, h.data); Handle(Some(made.0), made.1)
  }

  /** A copy refers to the object of the other handle with the data of that handle, and has what the reference
      makes of both. */
  lemma CopiedTogether(c: Callbacks, w: World, i: Id, from: Id)
    requires from in w.handles && i != from
    ensures var copy := Referred(c, w.handles[from]);
      && (i in w.handles ==> Next(c, w, CopyAssign(i, from)).handles == w.handles[i := copy])
      && (i !in w.handles ==> Next(c, w, CopyConstruct(i, from)).handles == w.handles[i := copy])
  {
  }

  /** An object and the data it was taken in with */
  datatype Pair = Pair(value: Value, data: Data)

  /** The callbacks leave the data alone. */
  ghost predicate Leaves(c: Callbacks) {
    && (forall t, d :: c.drop(t, d) == d)
    && (forall t, d :: c.ref(t, d).1 == d)
  }

  function Given(v: Option<Value>, data: Data): set<Pair> {
    match v
    case None => {}
    case Some(t) => {Pair(t, data)}
  }

  function Made(c: Callbacks, v: Option<Value>, data: Data): set<Pair> {
    match v
    case None => {}
    case Some(t) => {Pair(c.ref(t, data).0, data)}
  }

  /** The pair that an operation takes in or makes a reference for, by its arguments and the handles before
      it. A move takes nothing in. */
  ghost function TakenIn(c: Callbacks, w: World, op: Op): set<Pair>
    requires Enabled(w, op)
  {
    match op
    case Own(_, v, data) => Given(v, data)
    case Refer(_, v, data) => Made(c, v, data)
    case CopyConstruct(_, from) => Made(c, w.handles[from].maybe, w.handles[from].data)
    case CopyAssign(_, from) => Made(c, w.handles[from].maybe, w.handles[from].data)
    case Reset(i, v) => Given(v, w.handles[i].data)
    case ResetCopy(i, v) => Made(c, v, w.handles[i].data)
    case _ => {}
  }

  predicate HandleIn(h: Handle, taken: set<Pair>) {
    h.maybe.Some? ==> Pair(h.maybe.value, h.data) in taken
  }

  ghost predicate DropsIn(drops: seq<Drop>, taken: set<Pair>) {
    forall k | 0 <= k < |drops| :: Pair(drops[k].value, drops[k].data) in taken
  }

  /** Every object held is beside the data it was taken in with, and was dropped with it. */
  ghost predicate Together(w: World, taken: set<Pair>) {
    (forall i | i in w.handles :: HandleIn(w.handles[i], taken)) && DropsIn(w.drops, taken)
  }

  lemma ResetTogether(c: Callbacks, h: Handle, v: Option<Value>, taken: set<Pair>)
    requires Leaves(c) && HandleIn(h, taken)
    ensures var ch := ResetTo(c, h, v);
      HandleIn(ch.h, taken + Given(v, h.data)) && DropsIn(ch.drops, taken) && ch.h.data == h.data
  {
  }

  lemma RefTogether(c: Callbacks, h: Handle, v: Option<Value>, taken: set<Pair>)
    requires Leaves(c) && HandleIn(h, taken)
    ensures var ch := ResetRef(c, h, v); HandleIn(ch.h, taken + Made(c, v, h.data)) && DropsIn(ch.drops, taken)
  {
    hide ResetTo;
    match v
    case None => ResetTogether(c, h, None, taken);
    case Some(t) => ResetTogether(c, Handle(h.maybe, c.ref(t, h.data).1), Some(c.ref(t, h.data).0), taken);
  }

  lemma PutTogether(w: World, i: Id, ch: Change, given: Option<Value>, taken: set<Pair>, more: set<Pair>)
    requires Together(w, taken) && HandleIn(ch.h, taken + more) && DropsIn(ch.drops, taken)
    ensures Together(Put(w, i, ch, given), taken + more)
  {
  }

  lemma TakeTogether(w: World, from: Id, taken: set<Pair>)
    requires from in w.handles && Together(w, taken)
    ensures Together(Take(w, from), taken)
  {
  }

  lemma GoneTogether(w: World, i: Id, taken: set<Pair>)
    requires Together(w, taken)
    ensures Together(w.(handles := w.handles - {i}), taken)
  {
  }

  lemma AtTogether(w: World, i: Id, taken: set<Pair>)
    requires i in w.handles && Together(w, taken)
    ensures HandleIn(w.handles[i], taken)
  {
  }

  lemma TogetherStep(c: Callbacks, w: World, op: Op, taken: set<Pair>)
    requires Leaves(c) && Enabled(w, op) && !op.SetData? && Together(w, taken)
    ensures Together(Next(c, w, op), taken + TakenIn(c, w, op))
  {
    hide Leaves, Together, DropsIn, Put, Take, ResetTo, ResetRef, MovedInto, CopiedInto, Bag;
    if op.i in w.handles { AtTogether(w, op.i, taken); }
    match op
    case Own(i, v, data) => OwnTogether(w, i, v, data, taken);
    case Refer(i, v, data) =>
      RefTogether(c, Handle(None, data), v, taken);
      PutTogether(w, i, ResetRef(c, Handle(None, data), v), None, taken, TakenIn(c, w, op));
    case MoveConstruct(i, from) => MoveConstructTogether(c, w, i, from, taken);
    case CopyConstruct(i, from) =>
      var src := w.handles[from];
      RefTogether(c, Emptied(src), src.maybe, taken);
      PutTogether(w, i, ResetRef(c, Emptied(src), src.maybe), None, taken, TakenIn(c, w, op));
    case MoveAssign(i, from) => MoveAssignTogether(c, w, i, from, taken);
    case CopyAssign(i, from) => CopyAssignTogether(c, w, i, from, taken);
    case Reset(i, v) =>
      ResetTogether(c, w.handles[i], v, taken);
      PutTogether(w, i, ResetTo(c, w.handles[i], v), v, taken, TakenIn(c, w, op));
    case ResetCopy(i, v) =>
      RefTogether(c, w.handles[i], v, taken);
      PutTogether(w, i, ResetRef(c, w.handles[i], v), None, taken, TakenIn(c, w, op));
    case Release(i) => ReleaseTogether(c, w, i, taken);
    case Destroy(i) => DestroyTogether(c, w, i, taken);
  }

  lemma OwnTogether(w: World, i: Id, v: Option<Value>, data: Data, taken: set<Pair>)
    requires Together(w, taken)
    ensures Together(Put(w, i, Change(Handle(v, data), [], []), v), taken + Given(v, data))
  {
    hide Together, Put;
    PutTogether(w, i, Change(Handle(v, data), [], []), v, taken, Given(v, data));
  }

  lemma MoveConstructTogether(c: Callbacks, w: World, i: Id, from: Id, taken: set<Pair>)
    requires Enabled(w, MoveConstruct(i, from)) && Together(w, taken)
    ensures Together(Next(c, w, MoveConstruct(i, from)), taken + {})
  {
    hide Together, Put, Take;
    AtTogether(w, from, taken);
    TakeTogether(w, from, taken);
    PutTogether(Take(w, from), i, Change(w.handles[from], [], []), None, taken, {});
  }

  lemma MoveAssignTogether(c: Callbacks, w: World, i: Id, from: Id, taken: set<Pair>)
    requires Leaves(c) && Enabled(w, MoveAssign(i, from)) && Together(w, taken)
    ensures Together(Next(c, w, MoveAssign(i, from)), taken + {})
  {
    hide Leaves, Together, Put, Take, DropsIn;
    assert taken + {} == taken;
    if i != from {
      var dst, src := w.handles[i], w.handles[from];
      AtTogether(w, i, taken);
      AtTogether(w, from, taken);
      TakeTogether(w, from, taken);
      ResetTogether(c, dst, src.maybe, taken);
      PutTogether(Take(w, from), i, MovedInto(c, dst, src), None, taken, {});
    }
  }

  lemma CopyAssignTogether(c: Callbacks, w: World, i: Id, from: Id, taken: set<Pair>)
    requires Leaves(c) && Enabled(w, CopyAssign(i, from)) && Together(w, taken)
    ensures Together(Next(c, w, CopyAssign(i, from)), taken + TakenIn(c, w, CopyAssign(i, from)))
  {
    hide Leaves, Together, Put, ResetTo, ResetRef, DropsIn, Bag;
    var dst, src, more := w.handles[i], w.handles[from], TakenIn(c, w, CopyAssign(i, from));
    if i == from {
      MoreTogether(w, taken, more);
    } else {
      AtTogether(w, i, taken);
      ResetTogether(c, dst, None, taken);
      RefTogether(c, Emptied(src), src.maybe, taken);
      PutTogether(w, i, CopiedInto(c, dst, src), None, taken, more);
    }
  }

  lemma MoreTogether(w: World, taken: set<Pair>, more: set<Pair>)
    requires Together(w, taken)
    ensures Together(w, taken + more)
  {
  }

  lemma ReleaseTogether(c: Callbacks, w: World, i: Id, taken: set<Pair>)
    requires i in w.handles && Together(w, taken)
    ensures Together(Next(c, w, Release(i)), taken + {})
  {
    TakeTogether(w, i, taken);
  }

  lemma DestroyTogether(c: Callbacks, w: World, i: Id, taken: set<Pair>)
    requires Leaves(c) && i in w.handles && Together(w, taken)
    ensures Together(Next(c, w, Destroy(i)), taken + {})
  {
    hide Leaves, Together, Put, ResetTo, DropsIn;
    AtTogether(w, i, taken);
    ResetTogether(c, w.handles[i], None, taken);
    PutTogether(w, i, ResetTo(c, w.handles[i], None), None, taken, {});
    GoneTogether(Put(w, i, ResetTo(c, w.handles[i], None), None), i, taken + {});
  }

  ghost function AllTaken(c: Callbacks, ws: seq<World>, ops: seq<Op>, n: nat): set<Pair>
    requires Run(c, ws, ops) && n <= |ops|
  {
    if n == 0 then {} else AllTaken(c, ws, ops, n - 1) + TakenIn(c, ws[n - 1], ops[n - 1])
  }

  /** Over every run without changes from outside, through moves and copies, every object is held and dropped
      with the data it was taken in with. */
  lemma {:induction false} RunTogether(c: Callbacks, ws: seq<World>, ops: seq<Op>, n: nat)
    requires Leaves(c) && Run(c, ws, ops) && n <= |ops| && forall i | 0 <= i < |ops| :: !ops[i].SetData?
    ensures Together(ws[n], AllTaken(c, ws, ops, n))
  {
    hide Together, Next, TakenIn;
    if n == 0 {
      NoneTogether();
    } else {
      RunTogether(c, ws, ops, n - 1);
      TogetherStep(c, ws[n - 1], ops[n - 1], AllTaken(c, ws, ops, n - 1));
    }
  }

  lemma NoneTogether()
    ensures Together(NONE, {})
  {
  }
}
