/** `BasicStrBuf` of `include/stdplus/str/buf.hpp` byte by byte: one object in which the inline text
    and the pointer, capacity and length of a block overlap, told apart by the top bit of the last
    byte. `CharT` is `char`, and the host is little-endian. */
module StrBuf {
  import opened Bits
  import opened StrBufSpec

  // ---------------------------------------------------------------- words in memory

  const WORDS: nat := 0x1_0000_0000_0000_0000
  /** `dyn_mask` */
  const TAG: nat := 0x8000_0000_0000_0000

  /** The number whose bytes these are, least significant first. */
  function Le(bs: seq<Byte>): nat {
    if bs == [] then 0 else bs[0] + 256 * Le(bs[1..])
  }

  function BytesOf(n: nat, k: nat): (bs: seq<Byte>)
    ensures |bs| == k
  {
    if k == 0 then [] else [n % 256] + BytesOf(n / 256, k - 1)
  }

  ghost predicate FitsIn(n: nat, k: nat) {
    if k == 0 then n == 0 else FitsIn(n / 256, k - 1)
  }

  lemma {:induction false} LeBytes(n: nat, k: nat)
    requires FitsIn(n, k)
    ensures Le(BytesOf(n, k)) == n
  {
    if k > 0 { LeBytes(n / 256, k - 1); }
  }

  lemma FitsStep(n: nat, k: nat)
    requires FitsIn(n / 256, k)
    ensures FitsIn(n, k + 1)
  {
  }

  lemma WordFits(n: nat)
    requires n < WORDS
    ensures FitsIn(n, 8)
  {
    hide FitsIn;
    var n1 := n / 256;
    var n2 := n1 / 256;
    var n3 := n2 / 256;
    var n4 := n3 / 256;
    var n5 := n4 / 256;
    var n6 := n5 / 256;
    var n7 := n6 / 256;
    ZeroFits();
    assert n7 / 256 == 0;
    FitsStep(n7, 0);
    FitsStep(n6, 1);
    FitsStep(n5, 2);
    FitsStep(n4, 3);
    FitsStep(n3, 4);
    FitsStep(n2, 5);
    FitsStep(n1, 6);
    FitsStep(n, 7);
  }

  lemma ZeroFits()
    ensures FitsIn(0, 0)
  {
  }

  lemma BytesStep(n: nat, k: nat)
    requires k > 0
    ensures BytesOf(n, k + 1)[k] == BytesOf(n / 256, k)[k - 1]
  {
  }

  /** The top bit of a word is the top bit of its last byte. */
  lemma TopByte(n: nat)
    requires n < WORDS
    ensures BytesOf(n, 8)[7] >= 128 <==> n >= TAG
  {
    hide BytesOf;
    var n1 := n / 256;
    var n2 := n1 / 256;
    var n3 := n2 / 256;
    var n4 := n3 / 256;
    var n5 := n4 / 256;
    var n6 := n5 / 256;
    var n7 := n6 / 256;
    BytesStep(n, 7);
    BytesStep(n1, 6);
    BytesStep(n2, 5);
    BytesStep(n3, 4);
    BytesStep(n4, 3);
    BytesStep(n5, 2);
    BytesStep(n6, 1);
    OneByte(n7);
  }

  lemma OneByte(n: nat)
    ensures BytesOf(n, 1)[0] == n % 256
  {
  }

  /** `store.inl.len & inl_mask` */
  function Tagged(b: Byte): bool {
    BitAnd(b, 0x80) != 0
  }

  lemma TagBit(b: Byte)
    ensures Tagged(b) <==> b >= 128
  {
    assert Shl(1, 8) == 256 && Shl(1, 7) == 128;
    AndHigh(b, 8, 7);
  }

  lemma TagIsShifted()
    ensures Shl(1, 63) == TAG
  {
    assert Shl(1, 7) == 128;
    ShlAdd(1, 7, 8);
    ShlByte(128);
    ShlAdd(1, 15, 8);
    ShlByte(0x8000);
    ShlAdd(1, 23, 8);
    ShlByte(0x80_0000);
    ShlAdd(1, 31, 8);
    ShlByte(0x8000_0000);
    ShlAdd(1, 39, 8);
    ShlByte(0x80_0000_0000);
    ShlAdd(1, 47, 8);
    ShlByte(0x8000_0000_0000);
    ShlAdd(1, 55, 8);
    ShlByte(0x80_0000_0000_0000);
  }

  lemma ShlByte(n: nat)
    ensures Shl(n, 8) == 256 * n
  {
    assert Shl(1, 8) == 256;
    ShlIsTimes(n, 8);
  }

  /** `len | dyn_mask` */
  function WithTag(len: nat): nat {
    BitOr(TAG, len)
  }

  /** `len & ~dyn_mask` */
  function WithoutTag(word: nat): nat {
    BitAnd(word, TAG - 1)
  }

  lemma TagWord(len: nat)
    requires len < TAG
    ensures WithTag(len) == TAG + len && WithoutTag(TAG + len) == len
  {
    hide Shl;
    TagIsShifted();
    OrIntoShifted(1, 63, len);
    ShrAndMask(TAG + len, 63);
    DivModUnique(TAG + len, TAG, 1, len);
  }

  /** A tagged word is the tag and a length. */
  lemma TaggedWord(word: nat)
    requires TAG <= word < WORDS
    ensures WithoutTag(word) == word - TAG
  {
    TagWord(word - TAG);
  }

  // ---------------------------------------------------------------- reading the object

  /** At least the three words of a block, at most 127 characters inline. */
  ghost predicate Sized(bs: seq<Byte>) {
    24 <= |bs| <= 128
  }

  function Last(bs: seq<Byte>): Byte
    requires |bs| >= 24
  {
    bs[|bs| - 1]
  }

  function PtrOf(bs: seq<Byte>): Addr
    requires |bs| >= 24
  {
    Le(bs[|bs| - 24..|bs| - 16])
  }

  function CapOf(bs: seq<Byte>): nat
    requires |bs| >= 24
  {
    Le(bs[|bs| - 16..|bs| - 8])
  }

  function WordOf(bs: seq<Byte>): nat
    requires |bs| >= 24
  {
    Le(bs[|bs| - 8..])
  }

  /** `dynLen` */
  function LenOf(bs: seq<Byte>): nat
    requires |bs| >= 24
  {
    WithoutTag(WordOf(bs))
  }

  type Memory = map<Addr, Text>

  /** A dynamic buffer has a block, of its capacity, which is more than it could store itself; an inline
      one is no longer than that. */
  ghost predicate Owns(bs: seq<Byte>, mem: Memory)
    requires Sized(bs)
  {
    if Tagged(Last(bs)) then
      && PtrOf(bs) in mem && |mem[PtrOf(bs)]| == CapOf(bs)
      && LenOf(bs) <= CapOf(bs) && CapOf(bs) > |bs| - 1
    else Last(bs) <= |bs| - 1
  }

  ghost function View(bs: seq<Byte>, mem: Memory): Store
    requires Sized(bs) && Owns(bs, mem)
  {
    if Tagged(Last(bs)) then Dynamic(PtrOf(bs), CapOf(bs), mem[PtrOf(bs)][..LenOf(bs)])
    else Inline(bs[..Last(bs)])
  }

  lemma SeenDynamic(bs: seq<Byte>, mem: Memory, ptr: Addr, cap: nat, text: Text)
    requires Sized(bs) && Tagged(Last(bs)) && PtrOf(bs) == ptr && CapOf(bs) == cap && LenOf(bs) == |text|
    requires ptr in mem && |mem[ptr]| == cap && |text| <= cap && cap > |bs| - 1 && mem[ptr][..|text|] == text
    ensures Owns(bs, mem) && View(bs, mem) == Dynamic(ptr, cap, text)
  {
  }

  lemma SeenInline(bs: seq<Byte>, mem: Memory, text: Text)
    requires Sized(bs) && !Tagged(Last(bs)) && Last(bs) == |text| <= |bs| - 1 && bs[..|text|] == text
    ensures Owns(bs, mem) && View(bs, mem) == Inline(text)
  {
  }

  /** A buffer sees no more of the memory than its own block. */
  lemma ViewFrame(bs: seq<Byte>, was: Memory, now: Memory)
    requires Sized(bs) && Owns(bs, was)
    requires Tagged(Last(bs)) ==> PtrOf(bs) in now && now[PtrOf(bs)] == was[PtrOf(bs)]
    ensures Owns(bs, now) && View(bs, now) == View(bs, was)
  {
  }

  /** A word with a set top byte is tagged. */
  lemma WordBounds(bs: seq<Byte>)
    requires |bs| == 8
    ensures Le(bs) < WORDS && (bs[7] >= 128 <==> Le(bs) >= TAG)
  {
    hide Le;
    LeCons(bs);
    LeCons(bs[1..]);
    LeCons(bs[2..]);
    LeCons(bs[3..]);
    LeCons(bs[4..]);
    LeCons(bs[5..]);
    LeCons(bs[6..]);
    LeCons(bs[7..]);
    assert bs[1..][1..] == bs[2..] && bs[2..][1..] == bs[3..] && bs[3..][1..] == bs[4..] && bs[4..][1..] == bs[5..];
    assert bs[5..][1..] == bs[6..] && bs[6..][1..] == bs[7..] && bs[7..][1..] == [];
    LeNone();
  }

  lemma LeCons(bs: seq<Byte>)
    requires bs != []
    ensures Le(bs) == bs[0] + 256 * Le(bs[1..])
  {
  }

  lemma LeNone()
    ensures Le([]) == 0
  {
  }

  lemma TaggedLength(bs: seq<Byte>)
    requires |bs| >= 24 && Tagged(Last(bs))
    ensures TAG <= WordOf(bs) < WORDS && LenOf(bs) == WordOf(bs) - TAG
  {
    TagBit(Last(bs));
    assert bs[|bs| - 8..][7] == Last(bs);
    WordBounds(bs[|bs| - 8..]);
    TaggedWord(WordOf(bs));
  }

  /** A tagged word written last makes the object dynamic. */
  lemma LengthStored(bs: seq<Byte>, word: nat)
    requires |bs| >= 24 && TAG <= word < WORDS && bs[|bs| - 8..] == BytesOf(word, 8)
    ensures Tagged(Last(bs)) && LenOf(bs) == word - TAG
  {
    assert Last(bs) == bs[|bs| - 8..][7];
    TopByte(word);
    TagBit(Last(bs));
    WordFits(word);
    LeBytes(word, 8);
    TaggedWord(word);
  }

  lemma CapFits(bs: seq<Byte>)
    requires |bs| >= 24
    ensures PtrOf(bs) < WORDS && CapOf(bs) < WORDS
  {
    WordBounds(bs[|bs| - 24..|bs| - 16]);
    WordBounds(bs[|bs| - 16..|bs| - 8]);
  }

  lemma WordStored(bs: seq<Byte>, at: nat, word: nat)
    requires at + 8 <= |bs| && word < WORDS && bs[at..at + 8] == BytesOf(word, 8)
    ensures Le(bs[at..at + 8]) == word
  {
    WordFits(word);
    LeBytes(word, 8);
  }

  // ---------------------------------------------------------------- the allocator

  function Spliced(s: Text, off: nat, t: Text): (r: Text)
    requires off + |t| <= |s|
    ensures |r| == |s|
  {
    s[..off] + t + s[off + |t|..]
  }

  lemma SplicedTake(s: Text, off: nat, t: Text)
    requires off + |t| <= |s|
    ensures Spliced(s, off, t)[..off + |t|] == s[..off] + t
  {
  }

  lemma SplicedStep(s: Text, off: nat, t: Text, i: nat)
    requires off + |t| <= |s| && i < |t|
    ensures Spliced(s, off, t[..i])[off + i := t[i]] == Spliced(s, off, t[..i + 1])
  {
  }

  ghost function BlocksOf(mem: Memory): Blocks {
    map a | a in mem :: |mem[a]|
  }

  /** No block changes but those that the buffer owns or has been given. */
  ghost predicate Untouched(was: Memory, now: Memory, own: Blocks) {
    forall a | a in was && a !in own :: a in now && now[a] == was[a]
  }

  /** What an operation on one buffer does to the allocator. */
  ghost predicate Step(before: Memory, was: Store, after: Memory, now: Store) {
    BlocksOf(after) == After(BlocksOf(before), was, now) && Untouched(before, after, Owned(was))
  }

  lemma SameKeys(mem: Memory)
    ensures BlocksOf(mem).Keys == mem.Keys
  {
  }

  lemma BlockReplaced(b: Blocks, was: Store, now: Store)
    requires was.Dynamic? && now.Dynamic? && now.ptr !in b && was.ptr in b
    ensures After(b, was, now) == b[now.ptr := now.cap] - {was.ptr}
  {
  }

  lemma GivenBackThenCopied(b: Blocks, was: Store, now: Store)
    ensures After(b - Owned(was).Keys, EMPTY, now) == After(b, was, now)
    ensures b - Owned(was).Keys == if was.Inline? then b else b - {was.ptr}
  {
  }

  class Heap {
    var mem: Memory
    /** Characters copied because a text outgrew where it was. */
    ghost var copied: nat

    constructor ()
      ensures mem == map[] && copied == 0
    {
      mem, copied := map[], 0;
    }

    /** The block comes with whatever was in it. */
    method Allocate(n: nat, p: Addr)
      requires p !in mem
      modifies `mem
      ensures p in mem && |mem[p]| == n && mem == old(mem)[p := mem[p]]
      ensures BlocksOf(mem) == old(BlocksOf(mem))[p := n]
    {
      assert |seq(n, _ => 0)| == n;
      var junk: Text :| |junk| == n;
      mem := mem[p := junk];
    }

    method Deallocate(p: Addr, n: nat)
      requires p in mem && |mem[p]| == n
      modifies `mem
      ensures mem == old(mem) - {p}
      ensures BlocksOf(mem) == old(BlocksOf(mem)) - {p}
    {
      mem := mem - {p};
    }

    /** `std::copy` into a block */
    method Write(p: Addr, off: nat, t: Text)
      requires p in mem && off + |t| <= |mem[p]|
      modifies `mem
      ensures mem == old(mem)[p := Spliced(old(mem[p]), off, t)]
      ensures BlocksOf(mem) == old(BlocksOf(mem))
    {
      mem := mem[p := Spliced(mem[p], off, t)];
    }

    /** The `std::copy` of `append` that takes a text to its new block */
    method Relocate(p: Addr, t: Text)
      requires p in mem && |t| <= |mem[p]|
      modifies this
      ensures mem == old(mem)[p := Spliced(old(mem[p]), 0, t)]
      ensures BlocksOf(mem) == old(BlocksOf(mem)) && copied == old(copied) + |t|
    {
      Write(p, 0, t);
      copied := copied + |t|;
    }
  }

  // ---------------------------------------------------------------- the buffer

  class StrBuf {
    const raw: array<Byte>

    constructor (size: nat)
      requires 24 <= size <= 128
      ensures fresh(raw) && raw.Length == size
      ensures Last(raw[..]) == 0
    {
      raw := new Byte[size];
      new;
      raw[size - 1] := 0;
    }

    ghost predicate Valid(mem: Memory)
      reads raw
    {
      Sized(raw[..]) && Owns(raw[..], mem)
    }

    ghost function Contents(mem: Memory): Store
      requires Valid(mem)
      reads raw
    {
      View(raw[..], mem)
    }

    // -------------------------------------------------------------- stores into the object

    /** `std::copy` into the object */
    method WriteBytes(off: nat, t: Text)
      requires off + |t| <= raw.Length
      modifies raw
      ensures raw[..] == Spliced(old(raw[..]), off, t)
    {
      for i := 0 to |t|
        invariant raw[..] == Spliced(old(raw[..]), off, t[..i])
      {
        ghost var was := raw[..];
        raw[off + i] := t[i];
        assert raw[..] == was[off + i := t[i]];
        SplicedStep(old(raw[..]), off, t, i);
      }
      assert t[..|t|] == t;
    }

    /** `store.dyn.len = word` for a tagged word */
    method SetLenWord(word: nat)
      requires Sized(raw[..]) && TAG <= word < WORDS
      modifies raw
      ensures Tagged(Last(raw[..])) && LenOf(raw[..]) == word - TAG
      ensures PtrOf(raw[..]) == old(PtrOf(raw[..])) && CapOf(raw[..]) == old(CapOf(raw[..]))
    {
      hide BytesOf, Le, Tagged, WithoutTag;
      var n := raw.Length;
      WriteBytes(n - 8, BytesOf(word, 8));
      ghost var was, now := old(raw[..]), raw[..];
      assert now[n - 8..] == BytesOf(word, 8);
      LengthStored(now, word);
      assert now[n - 24..n - 16] == was[n - 24..n - 16];
      assert now[n - 16..n - 8] == was[n - 16..n - 8];
    }

    /** `dynLen(len)` */
    method SetDynLen(len: nat)
      requires Sized(raw[..]) && len < TAG
      modifies raw
      ensures Tagged(Last(raw[..])) && LenOf(raw[..]) == len
      ensures PtrOf(raw[..]) == old(PtrOf(raw[..])) && CapOf(raw[..]) == old(CapOf(raw[..]))
    {
      hide BytesOf, Le, Tagged, WithoutTag, WithTag;
      TagWord(len);
      SetLenWord(WithTag(len));
    }

    /** `store.dyn.ptr = ptr; store.dyn.cap = cap; dynLen(len)` */
    method SetDyn(ptr: Addr, cap: nat, len: nat)
      requires Sized(raw[..]) && ptr < WORDS && cap < WORDS && len < TAG
      modifies raw
      ensures Tagged(Last(raw[..])) && LenOf(raw[..]) == len
      ensures PtrOf(raw[..]) == ptr && CapOf(raw[..]) == cap
    {
      hide BytesOf, Le, Tagged, WithoutTag;
      var n := raw.Length;
      WriteBytes(n - 24, BytesOf(ptr, 8));
      ghost var a := raw[..];
      WriteBytes(n - 16, BytesOf(cap, 8));
      ghost var b := raw[..];
      assert b[n - 24..n - 16] == a[n - 24..n - 16] == BytesOf(ptr, 8);
      assert b[n - 16..n - 8] == BytesOf(cap, 8);
      WordStored(b, n - 24, ptr);
      WordStored(b, n - 16, cap);
      SetDynLen(len);
    }

    /** `inlLen(len)` */
    method SetInlLen(len: nat)
      requires Sized(raw[..]) && len < raw.Length
      modifies raw
      ensures Last(raw[..]) == len && !Tagged(Last(raw[..]))
      ensures raw[..raw.Length - 1] == old(raw[..raw.Length - 1])
    {
      raw[raw.Length - 1] := len;
      TagBit(len);
    }

    // -------------------------------------------------------------- append

    /** There is room in the object. */
    method AppendInline(heap: Heap, t: Text)
      requires Valid(heap.mem) && Contents(heap.mem).Inline?
      requires |Contents(heap.mem).text| + |t| <= raw.Length - 1
      modifies raw
      ensures Valid(heap.mem) && Contents(heap.mem) == Inline(old(Contents(heap.mem)).text + t)
    {
      hide Tagged, WithoutTag, Le;
      var n, oldlen := raw.Length, raw[raw.Length - 1];
      ghost var was := old(raw[..]);
      SetInlLen(oldlen + |t|);
      ghost var mid := raw[..];
      assert mid[..oldlen] == mid[..n - 1][..oldlen] == was[..n - 1][..oldlen] == was[..oldlen];
      WriteBytes(oldlen, t);
      assert Last(raw[..]) == Last(mid);
      SplicedTake(mid, oldlen, t);
      assert raw[..][..oldlen + |t|] == was[..oldlen] + t;
      SeenInline(raw[..], heap.mem, was[..oldlen] + t);
    }

    /** There is none: the text moves to a block. */
    method GrowInline(heap: Heap, t: Text, p: Addr)
      requires Valid(heap.mem) && Contents(heap.mem).Inline? && p !in heap.mem && p < WORDS
      requires raw.Length - 1 < |Contents(heap.mem).text| + |t| <= NewCap(|Contents(heap.mem).text| + |t|) < TAG
      modifies raw, heap
      ensures Valid(heap.mem)
      ensures var text := old(Contents(heap.mem)).text + t; Contents(heap.mem) == Dynamic(p, NewCap(|text|), text)
      ensures Step(old(heap.mem), old(Contents(heap.mem)), heap.mem, Contents(heap.mem))
      ensures heap.copied == old(heap.copied) + |old(Contents(heap.mem)).text|
    {
      hide Tagged, WithoutTag, Le;
      var oldlen := raw[raw.Length - 1];
      var newlen := oldlen + |t|;
      var newcap := newlen + newlen / 2;
      ghost var text := raw[..oldlen];
      heap.Allocate(newcap, p);
      heap.Relocate(p, raw[..oldlen]);
      SplicedTake(heap.mem[p], oldlen, t);
      assert heap.mem[p][..oldlen] == text;
      SetDyn(p, newcap, newlen);
      heap.Write(p, oldlen, t);
      SeenDynamic(raw[..], heap.mem, p, newcap, text + t);
    }

    /** There is room in the block. */
    method AppendDynamic(heap: Heap, t: Text)
      requires Valid(heap.mem) && Contents(heap.mem).Dynamic? && |Contents(heap.mem).text| + |t| < TAG
      requires |Contents(heap.mem).text| + |t| <= Contents(heap.mem).cap
      modifies raw, heap`mem
      ensures Valid(heap.mem)
      ensures Contents(heap.mem) == old(Contents(heap.mem)).(text := old(Contents(heap.mem)).text + t)
      ensures Step(old(heap.mem), old(Contents(heap.mem)), heap.mem, Contents(heap.mem))
    {
      hide Tagged, WithoutTag, Le;
      var ptr, cap, oldlen := PtrOf(raw[..]), CapOf(raw[..]), LenOf(raw[..]);
      ghost var text := heap.mem[ptr][..oldlen];
      SetDynLen(oldlen + |t|);
      SplicedTake(heap.mem[ptr], oldlen, t);
      heap.Write(ptr, oldlen, t);
      SeenDynamic(raw[..], heap.mem, ptr, cap, text + t);
    }

    /** There is none: the text moves to a larger block, and the old one is given back. */
    method GrowDynamic(heap: Heap, t: Text, p: Addr)
      requires Valid(heap.mem) && Contents(heap.mem).Dynamic? && p !in heap.mem && p < WORDS
      requires Contents(heap.mem).cap < |Contents(heap.mem).text| + |t|
      requires NewCap(|Contents(heap.mem).text| + |t|) < TAG
      modifies raw, heap
      ensures Valid(heap.mem)
      ensures var text := old(Contents(heap.mem)).text + t; Contents(heap.mem) == Dynamic(p, NewCap(|text|), text)
      ensures Step(old(heap.mem), old(Contents(heap.mem)), heap.mem, Contents(heap.mem))
      ensures heap.copied == old(heap.copied) + |old(Contents(heap.mem)).text|
    {
      hide Tagged, WithoutTag, Le, BlocksOf, After;
      var ptr, cap, oldlen := PtrOf(raw[..]), CapOf(raw[..]), LenOf(raw[..]);
      var newlen := oldlen + |t|;
      var newcap := newlen + newlen / 2;
      ghost var text := heap.mem[ptr][..oldlen];
      SameKeys(heap.mem);
      BlockReplaced(BlocksOf(heap.mem), Contents(heap.mem), Dynamic(p, newcap, text + t));
      heap.Allocate(newcap, p);
      heap.Relocate(p, heap.mem[ptr][..oldlen]);
      assert heap.mem[p][..oldlen] == text;
      heap.Deallocate(ptr, cap);
      SetDyn(p, newcap, newlen);
      SplicedTake(heap.mem[p], oldlen, t);
      heap.Write(p, oldlen, t);
      SeenDynamic(raw[..], heap.mem, p, newcap, text + t);
    }

    /** `append`, for texts whose length leaves the tag bit alone */
    method Append(heap: Heap, t: Text, p: Addr)
      requires Valid(heap.mem) && p !in heap.mem && p < WORDS
      requires NewCap(|Contents(heap.mem).text| + |t|) < TAG
      modifies raw, heap
      ensures Valid(heap.mem)
      ensures Contents(heap.mem) == Appended(old(Contents(heap.mem)), t, raw.Length - 1, p)
      ensures Step(old(heap.mem), old(Contents(heap.mem)), heap.mem, Contents(heap.mem))
      ensures heap.copied == old(heap.copied) + CopyCost(old(Contents(heap.mem)), t, raw.Length - 1)
    {
      hide WithoutTag, Le;
      if !Tagged(raw[raw.Length - 1]) {
        if raw[raw.Length - 1] + |t| <= raw.Length - 1 {
          AppendInline(heap, t);
        } else {
          GrowInline(heap, t, p);
        }
      } else {
        if LenOf(raw[..]) + |t| > CapOf(raw[..]) {
          GrowDynamic(heap, t, p);
        } else {
          AppendDynamic(heap, t);
        }
      }
    }

    // -------------------------------------------------------------- shrink and clear

    method Shrink(ghost mem: Memory, amt: nat)
      requires Valid(mem) && amt <= |Contents(mem).text|
      modifies raw
      ensures Valid(mem) && Contents(mem) == Shrunk(old(Contents(mem)), amt)
    {
      hide WithoutTag, Le;
      ghost var was := Contents(mem);
      if Tagged(raw[raw.Length - 1]) {
        TaggedLength(raw[..]);
        SetLenWord(WordOf(raw[..]) - amt);
        SeenDynamic(raw[..], mem, was.ptr, was.cap, was.text[..|was.text| - amt]);
      } else {
        Cut(raw[raw.Length - 1] - amt);
        SeenInline(raw[..], mem, was.text[..|was.text| - amt]);
      }
    }

    method Clear(ghost mem: Memory)
      requires Valid(mem)
      modifies raw
      ensures Valid(mem) && Contents(mem) == Cleared(old(Contents(mem)))
    {
      hide WithoutTag, Le;
      ghost var was := Contents(mem);
      if Tagged(raw[raw.Length - 1]) {
        SetDynLen(0);
        SeenDynamic(raw[..], mem, was.ptr, was.cap, []);
      } else {
        Cut(0);
        SeenInline(raw[..], mem, []);
      }
    }

    /** `inlLen(len)` for a length not above the one there was */
    method Cut(len: nat)
      requires Sized(raw[..]) && len <= Last(raw[..]) <= raw.Length - 1
      modifies raw
      ensures Last(raw[..]) == len && !Tagged(Last(raw[..]))
      ensures raw[..len] == old(raw[..len])
    {
      ghost var was := raw[..];
      SetInlLen(len);
      assert raw[..len] == raw[..raw.Length - 1][..len] == was[..raw.Length - 1][..len] == was[..len];
    }

    /** The destructor */
    method Destroy(heap: Heap)
      requires Valid(heap.mem)
      modifies heap`mem
      ensures BlocksOf(heap.mem) == old(BlocksOf(heap.mem)) - old(Owned(Contents(heap.mem))).Keys
      ensures Untouched(old(heap.mem), heap.mem, old(Owned(Contents(heap.mem))))
    {
      hide Le, WithoutTag;
      if Tagged(raw[raw.Length - 1]) {
        heap.Deallocate(PtrOf(raw[..]), CapOf(raw[..]));
      }
    }

    // -------------------------------------------------------------- copies and moves

    /** `inlcopy<assign>`: without `assign` the target is known to be inline. */
    method InlCopy(other: StrBuf, heap: Heap, assign: bool)
      requires raw != other.raw && raw.Length == other.raw.Length
      requires Valid(heap.mem) && other.Valid(heap.mem) && other.Contents(heap.mem).Inline?
      requires !assign ==> Contents(heap.mem).Inline?
      modifies raw, heap`mem
      ensures Valid(heap.mem)
      ensures Contents(heap.mem)
        == (if assign then Moved(old(Contents(heap.mem)), old(other.Contents(heap.mem))) else old(other.Contents(heap.mem)))
      ensures Step(old(heap.mem), old(Contents(heap.mem)), heap.mem, Contents(heap.mem))
      ensures BlocksOf(heap.mem) == old(BlocksOf(heap.mem))
    {
      hide Tagged, WithoutTag, Le;
      var olen := other.raw[other.raw.Length - 1];
      var text := other.raw[..olen];
      if assign && Tagged(raw[raw.Length - 1]) {
        ghost var was := Contents(heap.mem);
        SetDynLen(olen);
        SplicedTake(heap.mem[was.ptr], 0, text);
        heap.Write(PtrOf(raw[..]), 0, text);
        SeenDynamic(raw[..], heap.mem, was.ptr, was.cap, text);
        return;
      }
      StoreInline(heap.mem, text);
    }

    method StoreInline(ghost mem: Memory, text: Text)
      requires Sized(raw[..]) && |text| <= raw.Length - 1
      modifies raw
      ensures Valid(mem) && Contents(mem) == Inline(text)
    {
      hide Tagged, WithoutTag, Le;
      SetInlLen(|text|);
      ghost var mid := raw[..];
      WriteBytes(0, text);
      SplicedTake(mid, 0, text);
      assert Last(raw[..]) == Last(mid);
      SeenInline(raw[..], mem, text);
    }

    /** Two buffers that do not share storage */
    ghost predicate Apart(other: StrBuf, mem: Memory)
      requires Valid(mem) && other.Valid(mem)
      reads raw, other.raw
    {
      && raw != other.raw && raw.Length == other.raw.Length
      && Owned(Contents(mem)).Keys !! Owned(other.Contents(mem)).Keys
    }

    /** `move<assign>` */
    method Move(other: StrBuf, heap: Heap, assign: bool)
      requires Valid(heap.mem) && other.Valid(heap.mem) && Apart(other, heap.mem)
      requires !assign ==> Contents(heap.mem) == EMPTY
      modifies raw, other.raw, heap`mem
      ensures Valid(heap.mem) && other.Valid(heap.mem)
      ensures Contents(heap.mem) == Moved(old(Contents(heap.mem)), old(other.Contents(heap.mem)))
      ensures other.Contents(heap.mem) == EMPTY
      ensures BlocksOf(heap.mem) == old(if other.Contents(heap.mem).Inline? then BlocksOf(heap.mem)
                                        else BlocksOf(heap.mem) - Owned(Contents(heap.mem)).Keys)
      ensures Untouched(old(heap.mem), heap.mem, old(Owned(Contents(heap.mem))))
    {
      hide WithoutTag, Le;
      if !Tagged(other.raw[other.raw.Length - 1]) {
        InlCopy(other, heap, assign);
        other.ZeroInit(heap.mem);
      } else {
        MoveBlock(other, heap, assign);
      }
    }

    /** The target takes the other object as it is, pointer and all, after giving back its own block. */
    method MoveBlock(other: StrBuf, heap: Heap, assign: bool)
      requires Valid(heap.mem) && other.Valid(heap.mem) && Apart(other, heap.mem)
      requires other.Contents(heap.mem).Dynamic?
      requires !assign ==> Contents(heap.mem) == EMPTY
      modifies raw, other.raw, heap`mem
      ensures Valid(heap.mem) && other.Valid(heap.mem)
      ensures Contents(heap.mem) == old(other.Contents(heap.mem)) && other.Contents(heap.mem) == EMPTY
      ensures BlocksOf(heap.mem) == old(BlocksOf(heap.mem) - Owned(Contents(heap.mem)).Keys)
      ensures Untouched(old(heap.mem), heap.mem, old(Owned(Contents(heap.mem))))
    {
      hide WithoutTag, Le, BlocksOf, Tagged;
      ghost var src := other.Contents(heap.mem);
      assert src.ptr in Owned(src);
      if assign && Tagged(raw[raw.Length - 1]) {
        heap.Deallocate(PtrOf(raw[..]), CapOf(raw[..]));
      }
      WriteBytes(0, other.raw[..]);
      assert raw[..] == other.raw[..];
      SeenDynamic(raw[..], heap.mem, src.ptr, src.cap, src.text);
      other.ZeroInit(heap.mem);
    }

    /** `zeroInit` */
    method ZeroInit(ghost mem: Memory)
      requires Sized(raw[..])
      modifies raw
      ensures Valid(mem) && Contents(mem) == EMPTY
    {
      hide WithoutTag, Le, Tagged;
      SetInlLen(0);
      SeenInline(raw[..], mem, []);
    }

    /** `copy<assign>` */
    method Copy(other: StrBuf, heap: Heap, assign: bool, p: Addr)
      requires Valid(heap.mem) && other.Valid(heap.mem) && Apart(other, heap.mem) && p < WORDS
      requires p !in heap.mem.Keys - GivenBackFirst(Contents(heap.mem), other.Contents(heap.mem))
      requires !assign ==> Contents(heap.mem) == EMPTY
      modifies raw, heap`mem
      ensures Valid(heap.mem) && other.Valid(heap.mem)
      ensures Contents(heap.mem)
        == Copied(old(Contents(heap.mem)), old(other.Contents(heap.mem)), raw.Length - 1, p)
      ensures other.Contents(heap.mem) == old(other.Contents(heap.mem))
      ensures Step(old(heap.mem), old(Contents(heap.mem)), heap.mem, Contents(heap.mem))
    {
      hide WithoutTag, Le, BlocksOf, After, BitAnd;
      ghost var before := heap.mem;
      if !Tagged(other.raw[other.raw.Length - 1]) {
        InlCopy(other, heap, assign);
        ViewFrame(other.raw[..], before, heap.mem);
        return;
      }
      if assign && Tagged(raw[raw.Length - 1]) {
        if LenOf(other.raw[..]) <= CapOf(raw[..]) {
          CopyInto(other, heap);
          return;
        }
        heap.Deallocate(PtrOf(raw[..]), CapOf(raw[..]));
      }
      ghost var was := old(Contents(heap.mem));
      CopyAfresh(other, heap, p);
      GivenBackThenCopied(BlocksOf(before), was, Contents(heap.mem));
      hide BlocksOf, After;
    }

    /** The target's block is large enough. */
    method CopyInto(other: StrBuf, heap: Heap)
      requires Valid(heap.mem) && other.Valid(heap.mem) && Apart(other, heap.mem)
      requires Contents(heap.mem).Dynamic? && other.Contents(heap.mem).Dynamic?
      requires |other.Contents(heap.mem).text| <= Contents(heap.mem).cap
      modifies raw, heap`mem
      ensures Valid(heap.mem) && other.Valid(heap.mem)
      ensures Contents(heap.mem) == old(Contents(heap.mem)).(text := old(other.Contents(heap.mem)).text)
      ensures other.Contents(heap.mem) == old(other.Contents(heap.mem))
      ensures Step(old(heap.mem), old(Contents(heap.mem)), heap.mem, Contents(heap.mem))
    {
      hide WithoutTag, Le, Tagged;
      var optr, olen := PtrOf(other.raw[..]), LenOf(other.raw[..]);
      var ptr, cap := PtrOf(raw[..]), CapOf(raw[..]);
      var text := heap.mem[optr][..olen];
      TaggedLength(other.raw[..]);
      SetLenWord(WordOf(other.raw[..]));
      ghost var before := heap.mem;
      SplicedTake(heap.mem[ptr], 0, text);
      heap.Write(ptr, 0, text);
      SeenDynamic(raw[..], heap.mem, ptr, cap, text);
      ViewFrame(other.raw[..], before, heap.mem);
    }

    /** The target has no block, or has none any more. */
    method CopyAfresh(other: StrBuf, heap: Heap, p: Addr)
      requires Sized(raw[..]) && raw != other.raw && raw.Length == other.raw.Length
      requires other.Valid(heap.mem) && other.Contents(heap.mem).Dynamic?
      requires p < WORDS && p !in heap.mem
      modifies raw, heap`mem
      ensures Valid(heap.mem) && other.Valid(heap.mem)
      ensures Contents(heap.mem) == Copied(EMPTY, old(other.Contents(heap.mem)), raw.Length - 1, p)
      ensures other.Contents(heap.mem) == old(other.Contents(heap.mem))
      ensures Step(old(heap.mem), EMPTY, heap.mem, Contents(heap.mem))
    {
      hide WithoutTag, Le, Tagged;
      var ocap, olen := CapOf(other.raw[..]), LenOf(other.raw[..]);
      var text := heap.mem[PtrOf(other.raw[..])][..olen];
      if olen <= raw.Length - 1 {
        StoreInline(heap.mem, text);
        return;
      }
      ghost var before := heap.mem;
      heap.Allocate(ocap, p);
      TaggedLength(other.raw[..]);
      CapFits(other.raw[..]);
      SetDyn(p, ocap, olen);
      SplicedTake(heap.mem[p], 0, text);
      heap.Write(p, 0, text);
      SeenDynamic(raw[..], heap.mem, p, ocap, text);
      ViewFrame(other.raw[..], before, heap.mem);
    }

    /** `operator=(const BasicStrBuf&)` */
    method CopyAssign(other: StrBuf, heap: Heap, p: Addr)
      requires Valid(heap.mem) && other.Valid(heap.mem) && (this != other ==> Apart(other, heap.mem)) && p < WORDS
      requires p !in heap.mem.Keys - GivenBackFirst(Contents(heap.mem), other.Contents(heap.mem))
      modifies raw, heap`mem
      ensures Valid(heap.mem) && other.Valid(heap.mem)
      ensures this != other ==>
        Contents(heap.mem) == Copied(old(Contents(heap.mem)), old(other.Contents(heap.mem)), raw.Length - 1, p)
      ensures other.Contents(heap.mem) == old(other.Contents(heap.mem))
      ensures Step(old(heap.mem), old(Contents(heap.mem)), heap.mem, Contents(heap.mem))
      ensures this == other ==> heap.mem == old(heap.mem) && raw[..] == old(raw[..])
    {
      hide WithoutTag, Le, Tagged;
      if this != other { Copy(other, heap, true, p); }
    }

    /** `operator=(BasicStrBuf&&)` */
    method MoveAssign(other: StrBuf, heap: Heap)
      requires Valid(heap.mem) && other.Valid(heap.mem) && (this != other ==> Apart(other, heap.mem))
      modifies raw, other.raw, heap`mem
      ensures Valid(heap.mem) && other.Valid(heap.mem)
      ensures this == other ==> heap.mem == old(heap.mem) && raw[..] == old(raw[..])
      ensures this != other ==>
        && Contents(heap.mem) == Moved(old(Contents(heap.mem)), old(other.Contents(heap.mem)))
        && other.Contents(heap.mem) == EMPTY
        && BlocksOf(heap.mem) == old(if other.Contents(heap.mem).Inline? then BlocksOf(heap.mem)
                                     else BlocksOf(heap.mem) - Owned(Contents(heap.mem)).Keys)
        && Untouched(old(heap.mem), heap.mem, old(Owned(Contents(heap.mem))))
    {
      hide WithoutTag, Le, Tagged;
      if this != other { Move(other, heap, true); }
    }
  }
}
