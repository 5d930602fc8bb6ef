/** Several `BasicStrBuf` objects over one allocator: whatever a program does with them, they are the
    independent sequences of `StrBufSpec`. */
module StrBufPool {
  import opened StrBufSpec
  import opened StrBuf

  // ---------------------------------------------------------------- objects as values

  type Raws = map<Id, seq<Byte>>

  ghost predicate Good(raws: Raws, mem: Memory, size: nat) {
    24 <= size <= 128 && forall i <- raws :: |raws[i]| == size && Owns(raws[i], mem)
  }

  ghost function WorldOf(raws: Raws, mem: Memory, size: nat): World
    requires Good(raws, mem, size)
  {
    World(map i | i in raws :: View(raws[i], mem), BlocksOf(mem))
  }

  /** The objects and the memory stand for a state in which no two objects share a block. */
  ghost predicate Stands(raws: Raws, mem: Memory, size: nat) {
    Good(raws, mem, size) && Inv(WorldOf(raws, mem, size), size - 1)
  }

  lemma OwnDisjoint(raws: Raws, mem: Memory, size: nat, i: Id, j: Id)
    requires Stands(raws, mem, size) && i in raws && j in raws && i != j
    ensures Owned(View(raws[i], mem)).Keys !! Owned(View(raws[j], mem)).Keys
  {
    hide Le, WithoutTag, BlocksOf, View;
    var w := WorldOf(raws, mem, size);
    assert w.bufs[i] == View(raws[i], mem) && w.bufs[j] == View(raws[j], mem);
  }

  /** An object whose block has not been touched reads as before. */
  lemma Unmoved(bs: seq<Byte>, mem: Memory, mem': Memory, own: Blocks)
    requires Sized(bs) && Owns(bs, mem) && Untouched(mem, mem', own)
    requires own.Keys !! Owned(View(bs, mem)).Keys
    ensures Owns(bs, mem') && View(bs, mem') == View(bs, mem)
  {
    hide Le, WithoutTag;
    if Tagged(Last(bs)) { assert PtrOf(bs) in Owned(View(bs, mem)); }
    ViewFrame(bs, mem, mem');
  }

  /** The objects in `touched` may have changed, and the blocks in `own`, which no other object owns. */
  lemma Framed(raws: Raws, mem: Memory, raws': Raws, mem': Memory, size: nat, own: Blocks, touched: set<Id>)
    requires Good(raws, mem, size) && Untouched(mem, mem', own)
    requires forall j <- raws' | j !in touched ::
      j in raws && raws'[j] == raws[j] && own.Keys !! Owned(View(raws[j], mem)).Keys
    requires forall j <- raws' | j in touched :: |raws'[j]| == size && Owns(raws'[j], mem')
    ensures Good(raws', mem', size)
    ensures forall j <- raws' | j !in touched :: View(raws'[j], mem') == View(raws[j], mem)
  {
    hide Owns, View, Untouched, Owned;
    forall j | j in raws' && j !in touched
      ensures Owns(raws'[j], mem') && View(raws'[j], mem') == View(raws[j], mem)
    {
      Unmoved(raws[j], mem, mem', own);
    }
  }

  /** One object has changed, and the others are as they were. */
  lemma OneChanged(raws: Raws, mem: Memory, raws': Raws, mem': Memory, size: nat, i: Id)
    requires Stands(raws, mem, size) && i in raws && i in raws' && raws' == raws[i := raws'[i]]
    requires |raws'[i]| == size && Owns(raws'[i], mem')
    requires Step(mem, View(raws[i], mem), mem', View(raws'[i], mem'))
    ensures Good(raws', mem', size)
    ensures WorldOf(raws', mem', size) == Changed(WorldOf(raws, mem, size), i, View(raws'[i], mem'))
  {
    hide Inv, Owns, View, After, BlocksOf, Untouched, Owned;
    forall j | j in raws' && j != i
      ensures Owned(View(raws[i], mem)).Keys !! Owned(View(raws[j], mem)).Keys
    {
      OwnDisjoint(raws, mem, size, i, j);
    }
    Framed(raws, mem, raws', mem', size, Owned(View(raws[i], mem)), {i});
    assert WorldOf(raws', mem', size).bufs == WorldOf(raws, mem, size).bufs[i := View(raws'[i], mem')];
  }

  lemma SeenIn(raws: Raws, mem: Memory, size: nat, i: Id)
    requires Good(raws, mem, size)
    ensures var w := WorldOf(raws, mem, size);
      w.bufs.Keys == raws.Keys && w.blocks == BlocksOf(mem) && (i in raws ==> w.bufs[i] == View(raws[i], mem))
    ensures 24 <= size <= 128 && (i in raws ==> |raws[i]| == size && Owns(raws[i], mem))
  {
  }

  /** The step of an operation that changes one object. */
  lemma ChangeStep(raws: Raws, mem: Memory, raws': Raws, mem': Memory, size: nat, i: Id, op: Op)
    requires Stands(raws, mem, size) && i in raws && i in raws' && raws' == raws[i := raws'[i]]
    requires |raws'[i]| == size && Owns(raws'[i], mem')
    requires Step(mem, View(raws[i], mem), mem', View(raws'[i], mem'))
    requires Enabled(WorldOf(raws, mem, size), op)
    requires Next(WorldOf(raws, mem, size), op, size - 1) == Changed(WorldOf(raws, mem, size), i, View(raws'[i], mem'))
    ensures Stands(raws', mem', size) && WorldOf(raws', mem', size) == Next(WorldOf(raws, mem, size), op, size - 1)
  {
    hide Inv, Owns, View, Next, Changed, Enabled, Step;
    NextKeeps(WorldOf(raws, mem, size), op, size - 1);
    OneChanged(raws, mem, raws', mem', size, i);
  }

  lemma Nothing(mem: Memory)
    ensures Step(mem, EMPTY, mem, EMPTY)
  {
  }

  /** A new object is empty and owns nothing. */
  lemma SeenEmpty(bs: seq<Byte>, mem: Memory)
    requires Sized(bs) && Last(bs) == 0
    ensures Owns(bs, mem) && View(bs, mem) == EMPTY && Owned(View(bs, mem)) == map[]
  {
    TagBit(0);
    SeenInline(bs, mem, []);
  }

  /** A copy constructor is an empty object that is then copied into, */
  lemma ConstructThenCopy(w: World, v: World, i: Id, from: Id, p: Addr, bufLen: nat)
    requires Enabled(w, CopyConstruct(i, from, p)) && Enabled(w, Construct(i)) && v == Next(w, Construct(i), bufLen)
    ensures i != from && v.bufs[i] == EMPTY && Enabled(v, CopyAssign(i, from, p))
    ensures Next(v, CopyAssign(i, from, p), bufLen) == Next(w, CopyConstruct(i, from, p), bufLen)
  {
    assert After(w.blocks, EMPTY, EMPTY) == w.blocks;
  }

  /** and a move constructor one that is then moved into. */
  lemma ConstructThenMove(w: World, v: World, i: Id, from: Id, bufLen: nat)
    requires Enabled(w, MoveConstruct(i, from)) && Enabled(w, Construct(i)) && v == Next(w, Construct(i), bufLen)
    ensures i != from && v.bufs[i] == EMPTY && Enabled(v, MoveAssign(i, from))
    ensures Next(v, MoveAssign(i, from), bufLen) == Next(w, MoveConstruct(i, from), bufLen)
  {
    assert After(w.blocks, EMPTY, EMPTY) == w.blocks;
  }

  /** There is one object more. */
  lemma OneAdded(raws: Raws, mem: Memory, raws': Raws, mem': Memory, size: nat, i: Id)
    requires Good(raws, mem, size) && i !in raws && i in raws' && raws' == raws[i := raws'[i]]
    requires |raws'[i]| == size && Owns(raws'[i], mem')
    requires Step(mem, EMPTY, mem', View(raws'[i], mem'))
    ensures Good(raws', mem', size)
    ensures WorldOf(raws', mem', size) == Added(WorldOf(raws, mem, size), i, View(raws'[i], mem'))
  {
    hide Owns, View, After, BlocksOf, Untouched;
    Framed(raws, mem, raws', mem', size, map[], {i});
    assert WorldOf(raws', mem', size).bufs == WorldOf(raws, mem, size).bufs[i := View(raws'[i], mem')];
  }

  lemma BufsAre(raws: Raws, mem: Memory, size: nat)
    requires Good(raws, mem, size)
    ensures WorldOf(raws, mem, size).bufs == map i | i in raws :: View(raws[i], mem)
  {
  }

  /** One object has taken over what another had. */
  lemma TwoChanged(raws: Raws, mem: Memory, raws': Raws, mem': Memory, size: nat, i: Id, from: Id)
    requires Stands(raws, mem, size) && i in raws && from in raws && i != from
    requires i in raws' && from in raws' && raws' == raws[i := raws'[i]][from := raws'[from]]
    requires |raws'[i]| == size && Owns(raws'[i], mem') && |raws'[from]| == size && Owns(raws'[from], mem')
    requires Untouched(mem, mem', Owned(View(raws[i], mem)))
    ensures Good(raws', mem', size)
    ensures WorldOf(raws', mem', size).bufs
      == WorldOf(raws, mem, size).bufs[i := View(raws'[i], mem')][from := View(raws'[from], mem')]
  {
    hide Inv, Owns, View, After, BlocksOf, Untouched, Owned, WorldOf;
    forall j | j in raws' && j != i
      ensures Owned(View(raws[i], mem)).Keys !! Owned(View(raws[j], mem)).Keys
    {
      OwnDisjoint(raws, mem, size, i, j);
    }
    Framed(raws, mem, raws', mem', size, Owned(View(raws[i], mem)), {i, from});
    BufsAre(raws, mem, size);
    BufsAre(raws', mem', size);
  }

  /** The step of the default constructor. */
  lemma NewStep(raws: Raws, mem: Memory, size: nat, i: Id, bs: seq<Byte>)
    requires Stands(raws, mem, size) && Enabled(WorldOf(raws, mem, size), Construct(i))
    requires |bs| == size && Last(bs) == 0
    ensures i !in raws && Stands(raws[i := bs], mem, size)
    ensures WorldOf(raws[i := bs], mem, size) == Next(WorldOf(raws, mem, size), Construct(i), size - 1)
  {
    hide Inv, Owns, View, Owned, After, BlocksOf;
    NextKeeps(WorldOf(raws, mem, size), Construct(i), size - 1);
    SeenEmpty(bs, mem);
    Nothing(mem);
    OneAdded(raws, mem, raws[i := bs], mem, size, i);
  }

  /** The step of a move. */
  lemma MoveStep(raws: Raws, mem: Memory, raws': Raws, mem': Memory, size: nat, i: Id, from: Id)
    requires Stands(raws, mem, size) && i in raws && from in raws && i != from
    requires i in raws' && from in raws' && raws' == raws[i := raws'[i]][from := raws'[from]]
    requires |raws'[i]| == size && Owns(raws'[i], mem') && |raws'[from]| == size && Owns(raws'[from], mem')
    requires Untouched(mem, mem', Owned(View(raws[i], mem)))
    requires View(raws'[i], mem') == Moved(View(raws[i], mem), View(raws[from], mem)) && View(raws'[from], mem') == EMPTY
    requires BlocksOf(mem') == if View(raws[from], mem).Inline? then BlocksOf(mem)
                               else BlocksOf(mem) - Owned(View(raws[i], mem)).Keys
    requires Enabled(WorldOf(raws, mem, size), MoveAssign(i, from))
    ensures Stands(raws', mem', size)
    ensures WorldOf(raws', mem', size) == Next(WorldOf(raws, mem, size), MoveAssign(i, from), size - 1)
  {
    hide Inv, Owns, View, After, BlocksOf, Untouched, Owned, Moved;
    NextKeeps(WorldOf(raws, mem, size), MoveAssign(i, from), size - 1);
    TwoChanged(raws, mem, raws', mem', size, i, from);
    SeenIn(raws, mem, size, i);
    SeenIn(raws, mem, size, from);
  }

  /** There is one object less. */
  lemma OneGone(raws: Raws, mem: Memory, mem': Memory, size: nat, i: Id)
    requires Stands(raws, mem, size) && i in raws
    requires Untouched(mem, mem', Owned(View(raws[i], mem)))
    ensures Good(raws - {i}, mem', size)
    ensures WorldOf(raws - {i}, mem', size).bufs == WorldOf(raws, mem, size).bufs - {i}
  {
    hide Inv, Owns, View, After, BlocksOf, Untouched, Owned;
    forall j | j in raws && j != i
      ensures Owned(View(raws[i], mem)).Keys !! Owned(View(raws[j], mem)).Keys
    {
      OwnDisjoint(raws, mem, size, i, j);
    }
    Framed(raws, mem, raws - {i}, mem', size, Owned(View(raws[i], mem)), {});
  }

  /** The step of a destructor. */
  lemma GoneStep(raws: Raws, mem: Memory, mem': Memory, size: nat, i: Id)
    requires Stands(raws, mem, size) && i in raws && Enabled(WorldOf(raws, mem, size), Destroy(i))
    requires Untouched(mem, mem', Owned(View(raws[i], mem)))
    requires BlocksOf(mem') == BlocksOf(mem) - Owned(View(raws[i], mem)).Keys
    ensures Stands(raws - {i}, mem', size)
    ensures WorldOf(raws - {i}, mem', size) == Next(WorldOf(raws, mem, size), Destroy(i), size - 1)
  {
    hide Inv, Owns, View, BlocksOf, Untouched, Owned;
    NextKeeps(WorldOf(raws, mem, size), Destroy(i), size - 1);
    OneGone(raws, mem, mem', size, i);
    SeenIn(raws, mem, size, i);
  }

  /** An object that keeps its block leaves the allocator as it is. */
  lemma Kept(raws: Raws, mem: Memory, size: nat, i: Id, now: Store)
    requires Stands(raws, mem, size) && i in raws && Owned(now) == Owned(View(raws[i], mem))
    ensures Step(mem, View(raws[i], mem), mem, now)
  {
    hide Owns, View, BlocksOf, Fits;
    AfterSame(WorldOf(raws, mem, size), i, now, size - 1);
  }

  // ---------------------------------------------------------------- a program's buffers

  class Pool {
    const size: nat
    const heap: Heap
    var bufs: map<Id, StrBuf>

    constructor (size: nat)
      requires 24 <= size <= 128
      ensures Valid() && State() == NONE
    {
      this.size := size;
      heap := new Heap();
      bufs := map[];
    }

    ghost function Storage(): set<object>
      reads this
    {
      set i | i in bufs :: bufs[i].raw
    }

    ghost function Raws(): Raws
      reads this, Storage()
    {
      map i | i in bufs :: bufs[i].raw[..]
    }

    ghost predicate Distinct()
      reads this
    {
      forall i <- bufs, j <- bufs | i != j :: bufs[i] != bufs[j] && bufs[i].raw != bufs[j].raw
    }

    ghost predicate Valid()
      reads this, heap, Storage()
    {
      Distinct() && Stands(Raws(), heap.mem, size)
    }

    ghost function State(): World
      requires Valid()
      reads this, heap, Storage()
    {
      WorldOf(Raws(), heap.mem, size)
    }

    method Append(i: Id, t: Text, p: Addr)
      requires Valid() && Enabled(State(), Op.Append(i, t, p)) && p < WORDS
      requires NewCap(|State().bufs[i].text| + |t|) < TAG
      modifies heap, bufs[i].raw
      ensures Valid() && State() == Next(old(State()), Op.Append(i, t, p), size - 1)
    {
      hide Inv, Owns, View, After, Untouched, Owned, WorldOf, Good;
      ghost var raws, mem := Raws(), heap.mem;
      SeenIn(raws, mem, size, i);
      bufs[i].Append(heap, t, p);
      assert Raws() == raws[i := Raws()[i]];
      ChangeStep(raws, mem, Raws(), heap.mem, size, i, Op.Append(i, t, p));
    }

    method Shrink(i: Id, amt: nat)
      requires Valid() && Enabled(State(), Op.Shrink(i, amt))
      modifies bufs[i].raw
      ensures Valid() && State() == Next(old(State()), Op.Shrink(i, amt), size - 1)
    {
      hide Inv, Owns, View, After, Untouched, WorldOf, Good;
      ghost var raws, mem := Raws(), heap.mem;
      SeenIn(raws, mem, size, i);
      bufs[i].Shrink(heap.mem, amt);
      assert Raws() == raws[i := Raws()[i]];
      Kept(raws, mem, size, i, View(Raws()[i], mem));
      ChangeStep(raws, mem, Raws(), mem, size, i, Op.Shrink(i, amt));
    }

    method Clear(i: Id)
      requires Valid() && Enabled(State(), Op.Clear(i))
      modifies bufs[i].raw
      ensures Valid() && State() == Next(old(State()), Op.Clear(i), size - 1)
    {
      hide Inv, Owns, View, After, Untouched, WorldOf, Good;
      ghost var raws, mem := Raws(), heap.mem;
      SeenIn(raws, mem, size, i);
      bufs[i].Clear(heap.mem);
      assert Raws() == raws[i := Raws()[i]];
      Kept(raws, mem, size, i, View(Raws()[i], mem));
      ChangeStep(raws, mem, Raws(), mem, size, i, Op.Clear(i));
    }

    /** `copy`: without `assign` the target has just been constructed. */
    method Copy(i: Id, from: Id, assign: bool, p: Addr)
      requires Valid() && Enabled(State(), Op.CopyAssign(i, from, p)) && i != from && p < WORDS
      requires !assign ==> State().bufs[i] == EMPTY
      modifies heap, bufs[i].raw
      ensures Valid() && State() == Next(old(State()), Op.CopyAssign(i, from, p), size - 1)
    {
      hide Inv, Owns, View, After, Untouched, Owned, WorldOf, Good;
      ghost var raws, mem := Raws(), heap.mem;
      SeenIn(raws, mem, size, i);
      SeenIn(raws, mem, size, from);
      OwnDisjoint(raws, mem, size, i, from);
      bufs[i].Copy(bufs[from], heap, assign, p);
      assert Raws() == raws[i := Raws()[i]];
      ChangeStep(raws, mem, Raws(), heap.mem, size, i, Op.CopyAssign(i, from, p));
    }

    /** `operator=(const BasicStrBuf&)` */
    method CopyAssign(i: Id, from: Id, p: Addr)
      requires Valid() && Enabled(State(), Op.CopyAssign(i, from, p)) && p < WORDS
      modifies heap, bufs[i].raw
      ensures Valid() && State() == Next(old(State()), Op.CopyAssign(i, from, p), size - 1)
    {
      hide Inv, Stands, Good, WorldOf;
      if i != from { Copy(i, from, true, p); }
    }

    /** `move` */
    method Move(i: Id, from: Id, assign: bool)
      requires Valid() && Enabled(State(), Op.MoveAssign(i, from)) && i != from
      requires !assign ==> State().bufs[i] == EMPTY
      modifies heap, bufs[i].raw, bufs[from].raw
      ensures Valid() && State() == Next(old(State()), Op.MoveAssign(i, from), size - 1)
    {
      hide Inv, Owns, View, After, Untouched, Owned, WorldOf, Good;
      ghost var raws, mem := Raws(), heap.mem;
      SeenIn(raws, mem, size, i);
      SeenIn(raws, mem, size, from);
      OwnDisjoint(raws, mem, size, i, from);
      bufs[i].Move(bufs[from], heap, assign);
      ghost var left: Raws := raws[i := Raws()[i]];
      assert Raws() == left[from := Raws()[from]];
      MoveStep(raws, mem, Raws(), heap.mem, size, i, from);
    }

    /** `operator=(BasicStrBuf&&)` */
    method MoveAssign(i: Id, from: Id)
      requires Valid() && Enabled(State(), Op.MoveAssign(i, from))
      modifies heap, bufs[i].raw, bufs[from].raw
      ensures Valid() && State() == Next(old(State()), Op.MoveAssign(i, from), size - 1)
    {
      hide Inv, Stands, Good, WorldOf;
      if i != from { Move(i, from, true); }
    }

    method Construct(i: Id)
      requires Valid() && Enabled(State(), Op.Construct(i))
      modifies this
      ensures Valid() && State() == Next(old(State()), Op.Construct(i), size - 1)
      ensures i in bufs && fresh(bufs[i]) && fresh(bufs[i].raw) && bufs == old(bufs)[i := bufs[i]]
    {
      hide Inv, Owns, View, Owned, WorldOf, Good;
      ghost var raws := Raws();
      SeenIn(raws, heap.mem, size, i);
      var b := new StrBuf(size);
      bufs := bufs[i := b];
      assert Raws() == raws[i := b.raw[..]];
      NewStep(raws, heap.mem, size, i, b.raw[..]);
    }

    method CopyConstruct(i: Id, from: Id, p: Addr)
      requires Valid() && Enabled(State(), Op.CopyConstruct(i, from, p)) && p < WORDS
      modifies this, heap
      ensures Valid() && State() == Next(old(State()), Op.CopyConstruct(i, from, p), size - 1)
      ensures i in bufs && fresh(bufs[i]) && fresh(bufs[i].raw) && bufs == old(bufs)[i := bufs[i]]
    {
      hide Inv, Owns, View, After, WorldOf, Next;
      ghost var w := State();
      Construct(i);
      ConstructThenCopy(w, State(), i, from, p, size - 1);
      Copy(i, from, false, p);
    }

    method MoveConstruct(i: Id, from: Id)
      requires Valid() && Enabled(State(), Op.MoveConstruct(i, from))
      modifies this, heap, bufs[from].raw
      ensures Valid() && State() == Next(old(State()), Op.MoveConstruct(i, from), size - 1)
      ensures i in bufs && fresh(bufs[i]) && fresh(bufs[i].raw) && bufs == old(bufs)[i := bufs[i]]
    {
      assert from in bufs;
      hide Inv, Owns, View, After, WorldOf, Next;
      ghost var w := State();
      Construct(i);
      ConstructThenMove(w, State(), i, from, size - 1);
      Move(i, from, false);
    }

    method Destroy(i: Id)
      requires Valid() && Enabled(State(), Op.Destroy(i))
      modifies this, heap
      ensures Valid() && State() == Next(old(State()), Op.Destroy(i), size - 1)
      ensures bufs == old(bufs) - {i}
    {
      hide Inv, Owns, View, After, Untouched, Owned, WorldOf, Good;
      ghost var raws, mem := Raws(), heap.mem;
      SeenIn(raws, mem, size, i);
      bufs[i].Destroy(heap);
      bufs := bufs - {i};
      assert Raws() == raws - {i};
      GoneStep(raws, mem, heap.mem, size, i);
    }
  }

  // ---------------------------------------------------------------- what growth costs

  /** The allocator hands out addresses that the buffer does not own, and texts leave the tag bit alone. */
  ghost predicate Granted(ms: seq<Meter>, us: seq<Use>)
    requires |ms| == |us| + 1
  {
    forall i | 0 <= i < |us| && us[i].Grow? ::
      us[i].p < WORDS && us[i].p !in Owned(ms[i].s) && NewCap(|ms[i].s.text| + |us[i].t|) < TAG
  }

  lemma OwnsAll(b: Blocks, was: Store, now: Store)
    requires b == Owned(was)
    ensures After(b, was, now) == Owned(now)
  {
  }

  /** One buffer used on its own: the characters its growth really copies are those that the meter counts,
      and so at most three times its longest text. */
  method Replay(size: nat, us: seq<Use>, ghost ms: seq<Meter>) returns (b: StrBuf, heap: Heap)
    requires 24 <= size <= 128 && UseRun(ms, us, size - 1) && Granted(ms, us)
    ensures fresh(b) && fresh(heap) && b.Valid(heap.mem)
    ensures b.Contents(heap.mem) == ms[|us|].s && heap.copied == ms[|us|].copied
    ensures heap.copied <= 3 * ms[|us|].longest
  {
    hide Owns, View, After, Untouched, Owned, CopyCost;
    b := new StrBuf(size);
    heap := new Heap();
    SeenEmpty(b.raw[..], heap.mem);
    for i := 0 to |us|
      invariant fresh(b) && fresh(b.raw) && fresh(heap) && b.raw.Length == size && b.Valid(heap.mem)
      invariant b.Contents(heap.mem) == ms[i].s && heap.copied == ms[i].copied
      invariant BlocksOf(heap.mem) == Owned(ms[i].s)
    {
      match us[i] {
        case Grow(t, p) =>
          assert p !in heap.mem by { assert heap.mem.Keys == BlocksOf(heap.mem).Keys; }
          b.Append(heap, t, p);
          OwnsAll(Owned(ms[i].s), ms[i].s, ms[i + 1].s);
        case Cut(amt) =>
          b.Shrink(heap.mem, amt);
          SameBlock(ms[i].s, ms[i + 1].s);
        case Wipe =>
          b.Clear(heap.mem);
          SameBlock(ms[i].s, ms[i + 1].s);
      }
    }
    ghost var at := GrowthIsLinear(ms, us, size - 1, |us|);
  }

  lemma SameBlock(was: Store, now: Store)
    requires now == was.(text := now.text)
    ensures Owned(was) == Owned(now)
  {
  }
}
