/** `Managed::HandleF` and `Copyable::HandleF`: the fields, and the callbacks they run. */
module Handles {
  import opened HandleSpec

  /** What the callbacks have been run on, in order. */
  class Log {
    var drops: seq<Drop>
    var made: seq<Value>

    constructor ()
      ensures drops == [] && made == []
    {
      drops, made := [], [];
    }
  }

  class HandleF {
    const c: Callbacks
    const log: Log
    var maybeT: Option<Value>
    var data: Data

    function State(): Handle
      reads this
    {
      Handle(maybeT, data)
    }

    /** A handle that owns what it is given */
    constructor Own(c: Callbacks, log: Log, v: Option<Value>, data: Data)
      ensures this.c == c && this.log == log && State() == Handle(v, data)
    {
      this.c, this.log := c, log;
      maybeT, this.data := v, data;
    }

    /** A handle that owns a reference to what it is given */
    constructor Refer(c: Callbacks, log: Log, v: Option<Value>, data: Data)
      modifies log
      ensures this.c == c && this.log == log
      ensures Becomes(HandleSpec.ResetRef(c, Handle(None, data), v), old(log.drops), old(log.made))
    {
      this.c, this.log := c, log;
      maybeT, this.data := None, data;
      new;
      ResetCopy(v);
    }

    constructor MoveFrom(other: HandleF)
      modifies other
      ensures c == other.c && log == other.log
      ensures maybeT == old(other.maybeT) && data == old(other.data)
      ensures other.maybeT == None && other.data == old(other.data)
    {
      c, log := other.c, other.log;
      maybeT, data := other.maybeT, other.data;
      new;
      other.maybeT := None;
    }

    constructor CopyFrom(other: HandleF)
      modifies other.log
      ensures c == other.c && log == other.log && other.State() == old(other.State())
      ensures State() == Referred(c, other.State())
      ensures Becomes(HandleSpec.ResetRef(c, Emptied(other.State()), other.maybeT), old(other.log.drops), old(other.log.made))
    {
      c, log := other.c, other.log;
      maybeT, data := None, other.data;
      new;
      ResetCopy(other.maybeT);
    }

    /** An operation has made this of the handle and of the log. */
    ghost predicate Becomes(ch: Change, drops: seq<Drop>, made: seq<Value>)
      reads this, log
    {
      State() == ch.h && log.drops == drops + ch.drops && log.made == made + ch.made
    }

    method MaybeDrop()
      modifies this, log
      ensures maybeT == old(maybeT) && log.made == old(log.made)
      ensures old(maybeT).None? ==> data == old(data) && log.drops == old(log.drops)
      ensures old(maybeT).Some? ==>
        && data == c.drop(old(maybeT).value, old(data))
        && log.drops == old(log.drops) + [Drop(old(maybeT).value, old(data))]
    {
      if maybeT.Some? {
        log.drops := log.drops + [Drop(maybeT.value, data)];
        data := c.drop(maybeT.value, data);
      }
    }

    /** `reset(optional<T>&&)` */
    method Reset(v: Option<Value>)
      modifies this, log
      ensures Becomes(ResetTo(c, old(State()), v), old(log.drops), old(log.made))
    {
      MaybeDrop();
      maybeT := v;
    }

    method DoRef(v: Value) returns (t: Value)
      modifies this, log
      ensures (t, data) == c.ref(v, old(data)) && maybeT == old(maybeT)
      ensures log.drops == old(log.drops) && log.made == old(log.made) + [t]
    {
      var r := c.ref(v, data);
      t, data := r.0, r.1;
      log.made := log.made + [t];
    }

    /** `reset(const optional<T>&)` */
    method ResetCopy(v: Option<Value>)
      modifies this, log
      ensures Becomes(HandleSpec.ResetRef(c, old(State()), v), old(log.drops), old(log.made))
    {
      if v.Some? {
        var t := DoRef(v.value);
        Reset(Some(t));
      } else {
        Reset(None);
      }
    }

    /** `operator=(HandleF&&)` */
    method MoveAssign(other: HandleF)
      requires c == other.c && log == other.log
      modifies this, other, log
      ensures this == other ==> State() == old(State()) && log.drops == old(log.drops) && log.made == old(log.made)
      ensures this != other ==>
        && Becomes(MovedInto(c, old(State()), old(other.State())), old(log.drops), old(log.made))
        && maybeT == old(other.maybeT) && data == old(other.data)
        && other.maybeT == None && other.data == old(other.data)
    {
      if this != other {
        Reset(other.maybeT);
        data := other.data;
        other.maybeT := None;
      }
    }

    /** `operator=(const HandleF&)` */
    method CopyAssign(other: HandleF)
      requires c == other.c && log == other.log
      modifies this, log
      ensures this == other ==> State() == old(State()) && log.drops == old(log.drops) && log.made == old(log.made)
      ensures this != other ==>
        && Becomes(CopiedInto(c, old(State()), old(other.State())), old(log.drops), old(log.made))
        && State() == Referred(c, old(other.State()))
      ensures other.State() == old(other.State())
    {
      if this != other {
        Reset(None);
        data := other.data;
        ResetCopy(other.maybeT);
      }
    }

    /** `release` of an empty handle throws, which is `None` here; `maybe_release` returns it. */
    method Release() returns (r: Option<Value>)
      modifies this
      ensures r == old(maybeT) && maybeT == None && data == old(data)
    {
      r := maybeT;
      maybeT := None;
    }

    /** The destructor */
    method Destroy()
      modifies this, log
      ensures Becomes(ResetTo(c, old(State()), None), old(log.drops), old(log.made))
    {
      Reset(None);
    }
  }
}
