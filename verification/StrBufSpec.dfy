/** `BasicStrBuf` of `include/stdplus/str/buf.hpp` on values: what a buffer stores, what each
    operation makes of it and of the allocator's blocks, and what that means over runs. */
module StrBufSpec {

  type Byte = x: nat | x < 256
  type Addr = nat
  type Text = seq<Byte>

  /** The blocks handed out and not taken back, with their sizes. */
  type Blocks = map<Addr, nat>

  /** Short texts are stored in the object, others in a block of their own. */
  datatype Store = Inline(text: Text) | Dynamic(ptr: Addr, cap: nat, text: Text)

  const EMPTY := Inline([])

  /** A text of this length gets half of it on top. */
  function NewCap(len: nat): (c: nat)
    ensures c >= len && 2 * c <= 3 * len < 2 * c + 2
  {
    len + len / 2
  }

  /** What every buffer keeps: an inline text fits the object, and a block is larger than the object
      could have stored, so that an inline text of another buffer always fits into it. */
  ghost predicate Fits(s: Store, bufLen: nat) {
    match s
    case Inline(text) => |text| <= bufLen
    case Dynamic(_, cap, text) => |text| <= cap && cap > bufLen
  }

  // ---------------------------------------------------------------- operations on one buffer

  /** `append`, with the block the allocator would hand out at `p` */
  function Appended(s: Store, t: Text, bufLen: nat, p: Addr): Store {
    var text := s.text + t;
    match s
    case Inline(_) => if |text| <= bufLen then Inline(text) else Dynamic(p, NewCap(|text|), text)
    case Dynamic(ptr, cap, _) =>
      if |text| > cap then Dynamic(p, NewCap(|text|), text) else Dynamic(ptr, cap, text)
  }

  /** `shrink` */
  function Shrunk(s: Store, amt: nat): Store
    requires amt <= |s.text|
  {
    s.(text := s.text[..|s.text| - amt])
  }

  /** `clear` */
  function Cleared(s: Store): Store {
    s.(text := [])
  }

  /** `copy<true>`: the target of a copy assignment */
  function Copied(dst: Store, src: Store, bufLen: nat, p: Addr): Store {
    if src.Inline? then
      if dst.Dynamic? then dst.(text := src.text) else src
    else if dst.Dynamic? && |src.text| <= dst.cap then dst.(text := src.text)
    else if |src.text| <= bufLen then Inline(src.text)
    else Dynamic(p, src.cap, src.text)
  }

  /** `move<true>`: the target of a move assignment */
  function Moved(dst: Store, src: Store): Store {
    if src.Inline? && dst.Dynamic? then dst.(text := src.text) else src
  }

  /** The block a buffer owns. */
  function Owned(s: Store): Blocks {
    if s.Dynamic? then map[s.ptr := s.cap] else map[]
  }

  /** The allocator after a buffer has gone from one store to another. */
  function After(blocks: Blocks, was: Store, now: Store): Blocks {
    (blocks - Owned(was).Keys) + Owned(now)
  }

  /** A copy that needs a larger block gives its own back before it asks for one, and may be handed the
      same address. */
  function GivenBackFirst(dst: Store, src: Store): set<Addr> {
    if dst.Dynamic? && src.Dynamic? && |src.text| > dst.cap then {dst.ptr} else {}
  }

  // ---------------------------------------------------------------- several buffers

  type Id = nat

  datatype World = World(bufs: map<Id, Store>, blocks: Blocks)

  datatype Op =
    | Construct(i: Id)
    | Append(i: Id, t: Text, p: Addr)
    | Shrink(i: Id, amt: nat)
    | Clear(i: Id)
    | CopyConstruct(i: Id, from: Id, p: Addr)
    | MoveConstruct(i: Id, from: Id)
    | CopyAssign(i: Id, from: Id, p: Addr)
    | MoveAssign(i: Id, from: Id)
    | Destroy(i: Id)

  /** The source works on objects that exist, constructs where none is, does not shrink below zero;
      the allocator hands out addresses that are not in use. */
  ghost predicate Enabled(w: World, op: Op) {
    match op
    case Construct(i) => i !in w.bufs
    case Append(i, _, p) => i in w.bufs && p !in w.blocks
    case Shrink(i, amt) => i in w.bufs && amt <= |w.bufs[i].text|
    case Clear(i) => i in w.bufs
    case CopyConstruct(i, from, p) => i !in w.bufs && from in w.bufs && p !in w.blocks
    case MoveConstruct(i, from) => i !in w.bufs && from in w.bufs
    case CopyAssign(i, from, p) =>
      i in w.bufs && from in w.bufs && p !in w.blocks.Keys - GivenBackFirst(w.bufs[i], w.bufs[from])
    case MoveAssign(i, from) => i in w.bufs && from in w.bufs
    case Destroy(i) => i in w.bufs
  }

  /** One buffer changes, and with it the allocator. */
  function Changed(w: World, i: Id, now: Store): World
    requires i in w.bufs
  {
    World(w.bufs[i := now], After(w.blocks, w.bufs[i], now))
  }

  function Added(w: World, i: Id, now: Store): World {
    World(w.bufs[i := now], After(w.blocks, EMPTY, now))
  }

  function Next(w: World, op: Op, bufLen: nat): World
    requires Enabled(w, op)
  {
    match op
    case Construct(i) => Added(w, i, EMPTY)
    case Append(i, t, p) => Changed(w, i, Appended(w.bufs[i], t, bufLen, p))
    case Shrink(i, amt) => Changed(w, i, Shrunk(w.bufs[i], amt))
    case Clear(i) => Changed(w, i, Cleared(w.bufs[i]))
    case CopyConstruct(i, from, p) => Added(w, i, Copied(EMPTY, w.bufs[from], bufLen, p))
    case MoveConstruct(i, from) => World(w.bufs[i := w.bufs[from]][from := EMPTY], w.blocks)
    case CopyAssign(i, from, p) =>
      if i == from then w else Changed(w, i, Copied(w.bufs[i], w.bufs[from], bufLen, p))
    case MoveAssign(i, from) =>
      if i == from then w
      else
        var now := Moved(w.bufs[i], w.bufs[from]);
        var blocks := if w.bufs[from].Dynamic? then w.blocks - Owned(w.bufs[i]).Keys else w.blocks;
        World(w.bufs[i := now][from := EMPTY], blocks)
    case Destroy(i) =>
      World(w.bufs - {i}, w.blocks - Owned(w.bufs[i]).Keys)
  }

  /** Every buffer fits, every dynamic one owns a block of its capacity, and no two own the same. */
  ghost predicate Tidy(w: World, bufLen: nat) {
    && (forall i <- w.bufs :: Fits(w.bufs[i], bufLen))
    && (forall i <- w.bufs | w.bufs[i].Dynamic? :: w.bufs[i].ptr in w.blocks && w.blocks[w.bufs[i].ptr] == w.bufs[i].cap)
    && (forall i <- w.bufs, j <- w.bufs | i != j && w.bufs[i].Dynamic? && w.bufs[j].Dynamic? ::
          w.bufs[i].ptr != w.bufs[j].ptr)
  }

  /** No other block is out. */
  ghost predicate NoStray(w: World) {
    forall a <- w.blocks :: exists i :: i in w.bufs && w.bufs[i].Dynamic? && w.bufs[i].ptr == a
  }

  ghost predicate Inv(w: World, bufLen: nat) {
    Tidy(w, bufLen) && NoStray(w)
  }

  // ---------------------------------------------------------------- independent sequences

  /** What the buffers are for: each is a sequence of its own. */
  type Texts = map<Id, Text>

  ghost function TextsOf(w: World): Texts {
    map i | i in w.bufs :: w.bufs[i].text
  }

  /** The same operations on sequences; a buffer moved from is empty. */
  ghost function NextTexts(t: Texts, op: Op): Texts {
    match op
    case Construct(i) => t[i := []]
    case Append(i, s, _) => if i in t then t[i := t[i] + s] else t
    case Shrink(i, amt) => if i in t && amt <= |t[i]| then t[i := t[i][..|t[i]| - amt]] else t
    case Clear(i) => t[i := []]
    case CopyConstruct(i, from, _) => if from in t then t[i := t[from]] else t
    case MoveConstruct(i, from) => if from in t then t[i := t[from]][from := []] else t
    case CopyAssign(i, from, _) => if from in t then t[i := t[from]] else t
    case MoveAssign(i, from) => if i != from && from in t then t[i := t[from]][from := []] else t
    case Destroy(i) => t - {i}
  }

  lemma NextIsIndependent(w: World, op: Op, bufLen: nat)
    requires Enabled(w, op)
    ensures TextsOf(Next(w, op, bufLen)) == NextTexts(TextsOf(w), op)
  {
  }

  lemma ChangedKeeps(w: World, i: Id, now: Store, bufLen: nat)
    requires Inv(w, bufLen) && i in w.bufs && Fits(now, bufLen)
    requires now.Dynamic? ==> now.ptr !in w.blocks.Keys - Owned(w.bufs[i]).Keys
    ensures Inv(Changed(w, i, now), bufLen)
  {
    hide Inv, Changed, Fits;
    ChangedTidy(w, i, now, bufLen);
    ChangedNoStray(w, i, now, bufLen);
    InvIs(Changed(w, i, now), bufLen);
  }

  lemma InvIs(w: World, bufLen: nat)
    ensures Inv(w, bufLen) <==> Tidy(w, bufLen) && NoStray(w)
  {
  }

  lemma ChangedTidy(w: World, i: Id, now: Store, bufLen: nat)
    requires Inv(w, bufLen) && i in w.bufs && Fits(now, bufLen)
    requires now.Dynamic? ==> now.ptr !in w.blocks.Keys - Owned(w.bufs[i]).Keys
    ensures Tidy(Changed(w, i, now), bufLen)
  {
    hide NoStray, Fits;
  }

  lemma ChangedNoStray(w: World, i: Id, now: Store, bufLen: nat)
    requires Inv(w, bufLen) && i in w.bufs
    ensures NoStray(Changed(w, i, now))
  {
    hide Tidy;
    var v := Changed(w, i, now);
    forall a <- v.blocks
      ensures exists j :: j in v.bufs && v.bufs[j].Dynamic? && v.bufs[j].ptr == a
    {
      if now.Dynamic? && now.ptr == a {
        assert v.bufs[i].ptr == a;
      } else {
        var j :| j in w.bufs && w.bufs[j].Dynamic? && w.bufs[j].ptr == a;
        assert v.bufs[j] == w.bufs[j];
      }
    }
  }

  lemma NextKeeps(w: World, op: Op, bufLen: nat)
    requires Inv(w, bufLen) && Enabled(w, op)
    ensures Inv(Next(w, op, bufLen), bufLen)
  {
    match op
    case Construct(i) => AddedKeeps(w, i, EMPTY, bufLen);
    case Append(i, t, p) => ChangedKeeps(w, i, Appended(w.bufs[i], t, bufLen, p), bufLen);
    case Shrink(i, amt) => ChangedKeeps(w, i, Shrunk(w.bufs[i], amt), bufLen);
    case Clear(i) => ChangedKeeps(w, i, Cleared(w.bufs[i]), bufLen);
    case CopyConstruct(i, from, p) => AddedKeeps(w, i, Copied(EMPTY, w.bufs[from], bufLen, p), bufLen);
    case MoveConstruct(i, from) => HandedOver(w, i, from, bufLen);
    case CopyAssign(i, from, p) =>
      if i != from { ChangedKeeps(w, i, Copied(w.bufs[i], w.bufs[from], bufLen, p), bufLen); }
    case MoveAssign(i, from) =>
      if i == from {
      } else if w.bufs[from].Inline? {
        MoveInlineKeeps(w, i, from, bufLen);
      } else {
        MoveDynamicKeeps(w, i, from, bufLen);
      }
    case Destroy(i) => DestroyKeeps(w, i, bufLen);
  }

  lemma EmptyKeeps(w: World, i: Id, bufLen: nat)
    requires Inv(w, bufLen) && i !in w.bufs
    ensures Inv(World(w.bufs[i := EMPTY], w.blocks), bufLen)
  {
    var v := World(w.bufs[i := EMPTY], w.blocks);
    forall a <- v.blocks
      ensures exists j :: j in v.bufs && v.bufs[j].Dynamic? && v.bufs[j].ptr == a
    {
      var j :| j in w.bufs && w.bufs[j].Dynamic? && w.bufs[j].ptr == a;
      assert v.bufs[j] == w.bufs[j];
    }
  }

  lemma AddedKeeps(w: World, i: Id, now: Store, bufLen: nat)
    requires Inv(w, bufLen) && i !in w.bufs && Fits(now, bufLen)
    requires now.Dynamic? ==> now.ptr !in w.blocks
    ensures Inv(Added(w, i, now), bufLen)
  {
    hide Inv;
    EmptyKeeps(w, i, bufLen);
    var v := World(w.bufs[i := EMPTY], w.blocks);
    ChangedKeeps(v, i, now, bufLen);
    assert Added(w, i, now).bufs == Changed(v, i, now).bufs;
  }

  lemma Empty(bufLen: nat)
    ensures Fits(EMPTY, bufLen)
  {
  }

  lemma HandedOver(w: World, i: Id, from: Id, bufLen: nat)
    requires Inv(w, bufLen) && i !in w.bufs && from in w.bufs
    ensures Inv(World(w.bufs[i := w.bufs[from]][from := EMPTY], w.blocks), bufLen)
  {
    hide Fits;
    assert Fits(EMPTY, bufLen) by { Empty(bufLen); }
    var v := World(w.bufs[i := w.bufs[from]][from := EMPTY], w.blocks);
    forall a <- v.blocks
      ensures exists j :: j in v.bufs && v.bufs[j].Dynamic? && v.bufs[j].ptr == a
    {
      var j :| j in w.bufs && w.bufs[j].Dynamic? && w.bufs[j].ptr == a;
      if j == from { assert v.bufs[i].ptr == a; } else { assert v.bufs[j] == w.bufs[j]; }
    }
  }

  lemma DestroyKeeps(w: World, i: Id, bufLen: nat)
    requires Inv(w, bufLen) && i in w.bufs
    ensures Inv(Next(w, Destroy(i), bufLen), bufLen)
  {
    var v := Next(w, Destroy(i), bufLen);
    forall a <- v.blocks
      ensures exists j :: j in v.bufs && v.bufs[j].Dynamic? && v.bufs[j].ptr == a
    {
      var j :| j in w.bufs && w.bufs[j].Dynamic? && w.bufs[j].ptr == a;
      assert v.bufs[j] == w.bufs[j];
    }
  }

  /** A buffer that keeps its block leaves the allocator as it is. */
  lemma AfterSame(w: World, i: Id, now: Store, bufLen: nat)
    requires Inv(w, bufLen) && i in w.bufs && Owned(now) == Owned(w.bufs[i])
    ensures After(w.blocks, w.bufs[i], now) == w.blocks
  {
  }

  /** An inline source is copied, into the target's block if it has one. */
  lemma MoveInlineKeeps(w: World, i: Id, from: Id, bufLen: nat)
    requires Inv(w, bufLen) && i in w.bufs && from in w.bufs && i != from && w.bufs[from].Inline?
    ensures Inv(Next(w, MoveAssign(i, from), bufLen), bufLen)
  {
    var now := Moved(w.bufs[i], w.bufs[from]);
    var v := Changed(w, i, now);
    assert Fits(now, bufLen) && Owned(now).Keys <= Owned(w.bufs[i]).Keys && w.bufs[i].Dynamic? == now.Dynamic?;
    ChangedKeeps(w, i, now, bufLen);
    assert v.bufs[from] == w.bufs[from];
    ChangedKeeps(v, from, EMPTY, bufLen);
    AfterSame(w, i, now, bufLen);
    AfterSame(v, from, EMPTY, bufLen);
    hide Inv;
    assert Next(w, MoveAssign(i, from), bufLen) == Changed(v, from, EMPTY);
  }

  /** A dynamic source hands its block over after the target has given back its own. */
  lemma MoveDynamicKeeps(w: World, i: Id, from: Id, bufLen: nat)
    requires Inv(w, bufLen) && i in w.bufs && from in w.bufs && i != from && w.bufs[from].Dynamic?
    ensures Inv(Next(w, MoveAssign(i, from), bufLen), bufLen)
  {
    hide Inv;
    DestroyKeeps(w, i, bufLen);
    var v := Next(w, Destroy(i), bufLen);
    HandedOver(v, i, from, bufLen);
    assert Next(w, MoveAssign(i, from), bufLen).bufs == v.bufs[i := v.bufs[from]][from := EMPTY];
  }

  // ---------------------------------------------------------------- runs

  const NONE := World(map[], map[])

  ghost predicate Run(ws: seq<World>, ops: seq<Op>, bufLen: nat) {
    && |ws| == |ops| + 1 && ws[0] == NONE
    && forall i | 0 <= i < |ops| :: Enabled(ws[i], ops[i]) && ws[i + 1] == Next(ws[i], ops[i], bufLen)
  }

  ghost function RunTexts(ops: seq<Op>): Texts {
    if ops == [] then map[] else NextTexts(RunTexts(ops[..|ops| - 1]), ops[|ops| - 1])
  }

  /** Over every run each buffer is an independent sequence, and the blocks out are exactly those
      owned by dynamic buffers, one each: none leaks and none is given back twice. */
  lemma {:induction false} RunKeeps(ws: seq<World>, ops: seq<Op>, bufLen: nat, n: nat)
    requires Run(ws, ops, bufLen) && n <= |ops|
    ensures Inv(ws[n], bufLen) && TextsOf(ws[n]) == RunTexts(ops[..n])
  {
    if n > 0 {
      RunKeeps(ws, ops, bufLen, n - 1);
      NextKeeps(ws[n - 1], ops[n - 1], bufLen);
      NextIsIndependent(ws[n - 1], ops[n - 1], bufLen);
      assert ops[..n][..n - 1] == ops[..n - 1];
    }
  }

  /** When every buffer has been destroyed, no block is out. */
  lemma NoLeak(ws: seq<World>, ops: seq<Op>, bufLen: nat)
    requires Run(ws, ops, bufLen) && ws[|ops|].bufs == map[]
    ensures ws[|ops|].blocks == map[]
  {
    RunKeeps(ws, ops, bufLen, |ops|);
  }

  // ---------------------------------------------------------------- growth

  /** One buffer on its own with what its growth has cost: characters copied into new blocks, and the
      longest text so far. */
  datatype Meter = Meter(s: Store, copied: nat, longest: nat)

  datatype Use = Grow(t: Text, p: Addr) | Cut(amt: nat) | Wipe

  ghost predicate Usable(m: Meter, u: Use) {
    u.Cut? ==> u.amt <= |m.s.text|
  }

  /** Appending copies the old text if and only if it moves to a new block. */
  function CopyCost(s: Store, t: Text, bufLen: nat): nat {
    var n := |s.text| + |t|;
    if s.Inline? then (if n <= bufLen then 0 else |s.text|)
    else (if n > s.cap then |s.text| else 0)
  }

  function Used(m: Meter, u: Use, bufLen: nat): Meter
    requires Usable(m, u)
  {
    match u
    case Grow(t, p) =>
      var now := Appended(m.s, t, bufLen, p);
      Meter(now, m.copied + CopyCost(m.s, t, bufLen), if |now.text| > m.longest then |now.text| else m.longest)
    case Cut(amt) => m.(s := Shrunk(m.s, amt))
    case Wipe => m.(s := Cleared(m.s))
  }

  ghost predicate UseRun(ms: seq<Meter>, us: seq<Use>, bufLen: nat) {
    && |ms| == |us| + 1 && ms[0] == Meter(EMPTY, 0, 0)
    && forall i | 0 <= i < |us| :: Usable(ms[i], us[i]) && ms[i + 1] == Used(ms[i], us[i], bufLen)
  }

  /** The length at the last growth bounds cost and capacity. */
  ghost predicate Paid(m: Meter, at: nat, bufLen: nat) {
    && Fits(m.s, bufLen) && |m.s.text| <= m.longest && at <= m.longest
    && m.copied <= 3 * at
    && (m.s.Dynamic? ==> m.s.cap == NewCap(at) && at > bufLen)
    && (m.s.Inline? ==> m.copied == 0)
  }

  lemma UsedPaid(m: Meter, u: Use, at: nat, bufLen: nat) returns (at': nat)
    requires Paid(m, at, bufLen) && Usable(m, u)
    ensures Paid(Used(m, u, bufLen), at', bufLen)
  {
    at' := at;
    if u.Grow? {
      var n := |m.s.text| + |u.t|;
      if if m.s.Inline? then n > bufLen else n > m.s.cap { at' := n; }
    }
  }

  /** Over every run of append, shrink and clear the characters copied by growth are at most three
      times the longest text, and a block is at most half again as large. */
  lemma {:induction false} GrowthIsLinear(ms: seq<Meter>, us: seq<Use>, bufLen: nat, n: nat) returns (at: nat)
    requires UseRun(ms, us, bufLen) && n <= |us|
    ensures Paid(ms[n], at, bufLen)
    ensures ms[n].copied <= 3 * ms[n].longest
    ensures ms[n].s.Dynamic? ==> 2 * ms[n].s.cap <= 3 * ms[n].longest
  {
    if n == 0 {
      at := 0;
    } else {
      var before := GrowthIsLinear(ms, us, bufLen, n - 1);
      at := UsedPaid(ms[n - 1], us[n - 1], before, bufLen);
    }
  }
}
