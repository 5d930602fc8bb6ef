/** Several handles over one pair of callbacks: whatever a program does with them, they take the steps of
    `HandleSpec`. */
module HandlePool {
  import opened HandleSpec
  import opened Handles

  /** What an operation makes of a handle it makes of the world. */
  lemma PutIs(w: World, i: Id, ch: Change, given: Option<Value>, v: World, made: seq<Value>, base: multiset<Value>)
    requires w.owned == base + multiset(made) && v.handles == w.handles[i := ch.h]
    requires v.owned == base + Bag(given) + multiset(made + ch.made)
    requires v.drops == w.drops + ch.drops && v.released == w.released
    ensures v == Put(w, i, ch, given)
  {
  }

  class Pool {
    const c: Callbacks
    const log: Log
    var handles: map<Id, HandleF>
    /** What was moved in from outside, and what was released to it. */
    ghost var given: multiset<Value>
    ghost var released: multiset<Value>

    constructor (c: Callbacks)
      ensures Valid() && State() == NONE && this.c == c && fresh(log)
    {
      this.c := c;
      log := new Log();
      handles := map[];
      given, released := multiset{}, multiset{};
    }

    ghost function Objects(): set<HandleF>
      reads this
    {
      set i | i in handles :: handles[i]
    }

    ghost predicate Valid()
      reads this, Objects()
    {
      && (forall i <- handles :: handles[i].c == c && handles[i].log == log)
      && (forall i <- handles, j <- handles | i != j :: handles[i] != handles[j])
    }

    ghost function Values(): map<Id, Handle>
      reads this, Objects()
    {
      map i | i in handles :: handles[i].State()
    }

    ghost function State(): World
      reads this, Objects(), log
    {
      World(Values(), given + multiset(log.made), log.drops, released)
    }

    method Own(i: Id, v: Option<Value>, data: Data)
      requires Valid() && Enabled(State(), Op.Own(i, v, data))
      modifies this
      ensures Valid() && State() == Next(c, old(State()), Op.Own(i, v, data))
      ensures i in handles && fresh(handles[i]) && handles == old(handles)[i := handles[i]]
    {
      hide ResetTo, ResetRef, MovedInto, CopiedInto, Put;
      ghost var w, made := State(), log.made;
      var h := new HandleF.Own(c, log, v, data);
      handles := handles[i := h];
      PutIs(w, i, Change(Handle(v, data), [], []), v, State().(owned := given + Bag(v) + multiset(made)), made, given);
      given := given + Bag(v);
    }

    method Reset(i: Id, v: Option<Value>)
      requires Valid() && Enabled(State(), Op.Reset(i, v))
      modifies this, handles[i], log
      ensures Valid() && State() == Next(c, old(State()), Op.Reset(i, v))
    {
      hide ResetTo, ResetRef, MovedInto, CopiedInto, Put;
      ghost var w, made, base, ch := State(), log.made, given, ResetTo(c, handles[i].State(), v);
      handles[i].Reset(v);
      given := given + Bag(v);
      assert Values() == w.handles[i := ch.h];
      PutIs(w, i, ch, v, State(), made, base);
    }

    method Refer(i: Id, v: Option<Value>, data: Data)
      requires Valid() && Enabled(State(), Op.Refer(i, v, data))
      modifies this, log
      ensures Valid() && State() == Next(c, old(State()), Op.Refer(i, v, data))
      ensures i in handles && fresh(handles[i]) && handles == old(handles)[i := handles[i]]
    {
      hide ResetTo, ResetRef, MovedInto, CopiedInto, Put;
      ghost var w, made, ch := State(), log.made, ResetRef(c, Handle(None, data), v);
      var h := new HandleF.Refer(c, log, v, data);
      handles := handles[i := h];
      assert Values() == w.handles[i := ch.h];
      PutIs(w, i, ch, None, State(), made, given);
    }

    method MoveConstruct(i: Id, from: Id)
      requires Valid() && Enabled(State(), Op.MoveConstruct(i, from))
      modifies this, handles[from]
      ensures Valid() && State() == Next(c, old(State()), Op.MoveConstruct(i, from))
      ensures i in handles && fresh(handles[i]) && handles == old(handles)[i := handles[i]]
    {
      hide ResetTo, ResetRef, MovedInto, CopiedInto, Put;
      ghost var w, ch := State(), Change(handles[from].State(), [], []);
      var h := new HandleF.MoveFrom(handles[from]);
      handles := handles[i := h];
      assert Values() == Take(w, from).handles[i := ch.h];
      PutIs(Take(w, from), i, ch, None, State(), log.made, given);
    }

    method CopyConstruct(i: Id, from: Id)
      requires Valid() && Enabled(State(), Op.CopyConstruct(i, from))
      modifies this, log
      ensures Valid() && State() == Next(c, old(State()), Op.CopyConstruct(i, from))
      ensures i in handles && fresh(handles[i]) && handles == old(handles)[i := handles[i]]
    {
      hide ResetTo, ResetRef, MovedInto, CopiedInto, Put;
      ghost var src := handles[from].State();
      ghost var w, made, ch := State(), log.made, ResetRef(c, Emptied(src), src.maybe);
      var h := new HandleF.CopyFrom(handles[from]);
      handles := handles[i := h];
      assert Values() == w.handles[i := ch.h];
      PutIs(w, i, ch, None, State(), made, given);
    }

    method MoveAssign(i: Id, from: Id)
      requires Valid() && Enabled(State(), Op.MoveAssign(i, from))
      modifies handles[i], handles[from], log
      ensures Valid() && State() == Next(c, old(State()), Op.MoveAssign(i, from))
    {
      hide ResetTo, ResetRef, MovedInto, CopiedInto, Put;
      ghost var w, made, ch := State(), log.made, MovedInto(c, handles[i].State(), handles[from].State());
      handles[i].MoveAssign(handles[from]);
      if i == from {
        assert Values() == w.handles;
      } else {
        assert Values() == Take(w, from).handles[i := ch.h];
        PutIs(Take(w, from), i, ch, None, State(), made, given);
      }
    }

    method CopyAssign(i: Id, from: Id)
      requires Valid() && Enabled(State(), Op.CopyAssign(i, from))
      modifies handles[i], log
      ensures Valid() && State() == Next(c, old(State()), Op.CopyAssign(i, from))
    {
      hide ResetTo, ResetRef, MovedInto, CopiedInto, Put;
      ghost var w, made, ch := State(), log.made, CopiedInto(c, handles[i].State(), handles[from].State());
      handles[i].CopyAssign(handles[from]);
      if i == from {
        assert Values() == w.handles;
      } else {
        assert Values() == w.handles[i := ch.h];
        PutIs(w, i, ch, None, State(), made, given);
      }
    }

    method ResetCopy(i: Id, v: Option<Value>)
      requires Valid() && Enabled(State(), Op.ResetCopy(i, v))
      modifies handles[i], log
      ensures Valid() && State() == Next(c, old(State()), Op.ResetCopy(i, v))
    {
      hide ResetTo, ResetRef, MovedInto, CopiedInto, Put;
      ghost var w, made, ch := State(), log.made, ResetRef(c, handles[i].State(), v);
      handles[i].ResetCopy(v);
      assert Values() == w.handles[i := ch.h];
      PutIs(w, i, ch, None, State(), made, given);
    }

    method Release(i: Id) returns (r: Option<Value>)
      requires Valid() && Enabled(State(), Op.Release(i))
      modifies this, handles[i]
      ensures Valid() && State() == Next(c, old(State()), Op.Release(i))
      ensures r == old(State()).handles[i].maybe
    {
      ghost var w := State();
      r := handles[i].Release();
      released := released + Bag(r);
      assert Values() == Take(w, i).handles;
    }

    method SetData(i: Id, data: Data)
      requires Valid() && Enabled(State(), Op.SetData(i, data))
      modifies handles[i]
      ensures Valid() && State() == Next(c, old(State()), Op.SetData(i, data))
    {
      ghost var w := State();
      handles[i].data := data;
      assert Values() == w.handles[i := Handle(w.handles[i].maybe, data)];
    }

    method Destroy(i: Id)
      requires Valid() && Enabled(State(), Op.Destroy(i))
      modifies this, handles[i], log
      ensures Valid() && State() == Next(c, old(State()), Op.Destroy(i))
    {
      hide ResetTo, ResetRef, MovedInto, CopiedInto, Put;
      ghost var w, made, ch := State(), log.made, ResetTo(c, handles[i].State(), None);
      handles[i].Destroy();
      assert Values() == w.handles[i := ch.h];
      PutIs(w, i, ch, None, State(), made, given);
      handles := handles - {i};
      assert Values() == w.handles[i := ch.h] - {i};
    }
  }
}
