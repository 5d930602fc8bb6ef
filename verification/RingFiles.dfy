/** The registered files of `src/io_uring.cpp` as a state machine: the slot table with its counter on
    one side, the kernel's table and the handles given out on the other. */
module RingFiles {

  /** A `FileHandle`: the slot it holds, and the descriptor it was made for. */
  datatype FileHandle = FileHandle(slot: nat, fd: int)

  /** `files`, `filesAllocated`, the kernel's copy of the table, and the handles alive. */
  datatype Files = Files(files: seq<int>, filesAllocated: int, kernel: seq<int>, live: seq<FileHandle>)

  const FRESH := Files([], 0, [], [])

  function Max(a: nat, b: nat): nat {
    if a < b then b else a
  }

  /** `files.resize(n, -1)` for a larger `n` */
  function Grown(files: seq<int>, n: nat): (r: seq<int>)
    requires n >= |files|
    ensures |r| == n
  {
    files + seq(n - |files|, _ => -1)
  }

  /** `setFile` */
  function FileSet(s: Files, slot: nat, fd: int): Files
    requires slot < |s.files|
  {
    var was := s.files[slot];
    var n := if was == -1 && was != fd then s.filesAllocated + 1
             else if fd == -1 && was != fd then s.filesAllocated - 1
             else s.filesAllocated;
    s.(files := s.files[slot := fd], filesAllocated := n)
  }

  /** `updateFile`: the kernel's entry follows. */
  function FileUpdated(s: Files, slot: nat, fd: int): Files
    requires slot < |s.files| && slot < |s.kernel|
  {
    var t := FileSet(s, slot, fd);
    t.(kernel := t.kernel[slot := t.files[slot]])
  }

  /** `reserveFiles` */
  function FilesReserved(s: Files, num: nat): Files
    requires s.filesAllocated >= 0
  {
    var n := Max(7, num + s.filesAllocated);
    if |s.files| < n then s.(files := Grown(s.files, n), kernel := Grown(s.files, n)) else s
  }

  /** The first free slot, or the size of the table. */
  function FirstFree(files: seq<int>): (k: nat)
    ensures k <= |files| && (k < |files| ==> files[k] == -1)
    ensures forall i | 0 <= i < k :: files[i] != -1
  {
    if files == [] || files[0] == -1 then 0 else 1 + FirstFree(files[1..])
  }

  /** `registerFile` */
  function FileRegistered(s: Files, fd: int): Files
    requires |s.kernel| == |s.files|
  {
    var slot := FirstFree(s.files);
    var t :=
      if slot < |s.files| then FileUpdated(s, slot, fd)
      else
        var g := FileSet(s.(files := Grown(s.files, Max(7, |s.files| * 2 + 1))), slot, fd);
        g.(kernel := g.files);
    t.(live := t.live + [FileHandle(slot, fd)])
  }

  /** The handle at index `i` is dropped. */
  function HandleDropped(s: Files, i: nat): Files
    requires i < |s.live| && s.live[i].slot < |s.files| && |s.kernel| == |s.files|
  {
    FileUpdated(s, s.live[i].slot, -1).(live := s.live[..i] + s.live[i + 1..])
  }

  // ---------------------------------------------------------------- the invariant

  /** How many slots are taken. */
  ghost function Used(files: seq<int>): (n: nat)
    ensures n <= |files|
  {
    if files == [] then 0 else Used(files[..|files| - 1]) + (if files[|files| - 1] == -1 then 0 else 1)
  }

  /** Handles hold distinct slots that carry their own descriptors. */
  ghost predicate Own(files: seq<int>, live: seq<FileHandle>) {
    && (forall i | 0 <= i < |live| :: live[i].slot < |files| && files[live[i].slot] == live[i].fd != -1)
    && (forall i, j | 0 <= i < j < |live| :: live[i].slot != live[j].slot)
  }

  ghost predicate Inv(s: Files) {
    && s.filesAllocated == Used(s.files) == |s.live|
    && s.kernel == s.files
    && Own(s.files, s.live)
  }

  lemma {:induction false} UsedUpdate(files: seq<int>, k: nat, fd: int)
    requires k < |files|
    ensures Used(files[k := fd]) + (if files[k] == -1 then 0 else 1) == Used(files) + (if fd == -1 then 0 else 1)
  {
    var n := |files| - 1;
    if k == n {
      assert files[k := fd][..n] == files[..n];
    } else {
      UsedUpdate(files[..n], k, fd);
      assert files[k := fd][..n] == files[..n][k := fd];
    }
  }

  lemma {:induction false} UsedGrown(files: seq<int>, n: nat)
    requires n >= |files|
    ensures Used(Grown(files, n)) == Used(files)
    decreases n
  {
    if n == |files| {
      assert Grown(files, n) == files;
    } else {
      UsedGrown(files, n - 1);
      assert Grown(files, n)[..n - 1] == Grown(files, n - 1);
    }
  }

  lemma {:induction false} UsedFull(files: seq<int>)
    ensures Used(files) == |files| <==> FirstFree(files) == |files|
    decreases |files|
  {
    if files != [] {
      var n := |files| - 1;
      UsedFull(files[..n]);
      var f, g := FirstFree(files), FirstFree(files[..n]);
      if g < n { assert files[g] == -1; } else { assert forall i | 0 <= i < n :: files[i] != -1; }
    }
  }

  /** `filesAllocated` follows the table through `setFile`, whatever the old and new entries are. */
  lemma FileSetCounts(s: Files, slot: nat, fd: int)
    requires slot < |s.files| && s.filesAllocated == Used(s.files)
    ensures var t := FileSet(s, slot, fd); t.filesAllocated == Used(t.files)
  {
    UsedUpdate(s.files, slot, fd);
  }

  lemma ReservedKeeps(s: Files, num: nat)
    requires Inv(s)
    ensures var t := FilesReserved(s, num);
            && Inv(t) && t.live == s.live
            && |t.files| == Max(|s.files|, Max(7, num + s.filesAllocated))
            && t.files[..|s.files|] == s.files
  {
    var n := Max(7, num + s.filesAllocated);
    if |s.files| < n { UsedGrown(s.files, n); }
  }

  /** The table after growing for a registration: old entries kept, the new slot free. */
  lemma RegisteredTable(s: Files, fd: int)
    requires Inv(s)
    ensures var t, slot := FileRegistered(s, fd), FirstFree(s.files);
            && |t.files| >= |s.files| && slot < |t.files| && t.files[slot] == fd && t.kernel == t.files
            && t.filesAllocated == Used(t.files) == Used(s.files) + (if fd == -1 then 0 else 1)
            && (forall i | 0 <= i < |s.files| && i != slot :: t.files[i] == s.files[i])
            && t.live == s.live + [FileHandle(slot, fd)]
            && (Used(s.files) < |s.files| ==> |t.files| == |s.files|)
            && (Used(s.files) == |s.files| ==> |t.files| == Max(7, 2 * |s.files| + 1))
  {
    hide Own;
    UsedFull(s.files);
    var slot := FirstFree(s.files);
    if slot < |s.files| {
      FileSetCounts(s, slot, fd);
      UsedUpdate(s.files, slot, fd);
    } else {
      var n := Max(7, |s.files| * 2 + 1);
      UsedGrown(s.files, n);
      FileSetCounts(s.(files := Grown(s.files, n)), slot, fd);
      UsedUpdate(Grown(s.files, n), slot, fd);
    }
  }

  /** A registration keeps the table, the counter, the kernel and the handles in step exactly when
      it is for a descriptor and not for -1. It takes the first free slot. */
  lemma RegisteredKeeps(s: Files, fd: int)
    requires Inv(s)
    ensures Inv(FileRegistered(s, fd)) <==> fd != -1
  {
    hide FileRegistered, FirstFree;
    RegisteredTable(s, fd);
    var t, slot := FileRegistered(s, fd), FirstFree(s.files);
    if fd != -1 {
      forall i | 0 <= i < |s.live|
        ensures s.live[i].slot != slot
      {
        assert s.files[s.live[i].slot] != -1;
      }
    }
  }

  lemma DroppedKeeps(s: Files, i: nat)
    requires Inv(s) && i < |s.live|
    ensures Inv(HandleDropped(s, i))
    ensures var t := HandleDropped(s, i);
            && t.files == s.files[s.live[i].slot := -1]
            && t.live == s.live[..i] + s.live[i + 1..]
  {
    var slot := s.live[i].slot;
    FileSetCounts(s, slot, -1);
    UsedUpdate(s.files, slot, -1);
    var t := HandleDropped(s, i);
    forall j | 0 <= j < |t.live|
      ensures t.live[j].slot != slot && t.files[t.live[j].slot] == t.live[j].fd
    {
      assert t.live[j] == s.live[if j < i then j else j + 1];
    }
  }

  // ---------------------------------------------------------------- runs

  datatype Step = Reserve(num: nat) | Register(fd: int) | Drop(i: nat)

  ghost predicate Enabled(s: Files, step: Step) {
    match step
    case Reserve(_) => true
    case Register(fd) => fd != -1
    case Drop(i) => i < |s.live|
  }

  ghost function Next(s: Files, step: Step): Files
    requires Inv(s) && Enabled(s, step)
  {
    match step
    case Reserve(num) => FilesReserved(s, num)
    case Register(fd) => FileRegistered(s, fd)
    case Drop(i) => HandleDropped(s, i)
  }

  lemma NextKeeps(s: Files, step: Step)
    requires Inv(s) && Enabled(s, step)
    ensures Inv(Next(s, step))
  {
    hide Inv, FilesReserved, FileRegistered, HandleDropped;
    match step
    case Reserve(num) => ReservedKeeps(s, num);
    case Register(fd) => RegisteredKeeps(s, fd);
    case Drop(i) => DroppedKeeps(s, i);
  }

  /** The states of a run from `start`. A step is defined where the invariant holds, which `RunKeeps`
      shows to be everywhere. */
  ghost predicate Run(start: Files, ss: seq<Files>, steps: seq<Step>) {
    && |ss| == |steps| + 1 && ss[0] == start
    && forall i | 0 <= i < |steps| :: Inv(ss[i]) ==> Enabled(ss[i], steps[i]) && ss[i + 1] == Next(ss[i], steps[i])
  }

  /** Over every run, table, counter, kernel and handles agree. */
  lemma {:induction false} RunKeeps(start: Files, ss: seq<Files>, steps: seq<Step>, n: nat)
    requires Inv(start) && Run(start, ss, steps) && n <= |steps|
    ensures Inv(ss[n])
  {
    if n > 0 {
      RunKeeps(start, ss, steps, n - 1);
      NextKeeps(ss[n - 1], steps[n - 1]);
    }
  }

  lemma FreshInv()
    ensures Inv(FRESH)
  {
  }

  ghost function Registers(steps: seq<Step>): nat {
    if steps == [] then 0 else Registers(steps[..|steps| - 1]) + (if steps[|steps| - 1].Register? then 1 else 0)
  }

  ghost predicate NoReserve(steps: seq<Step>) {
    forall i | 0 <= i < |steps| :: !steps[i].Reserve?
  }

  /** While registrations do not outnumber the free slots, with drops in between or not, the table
      keeps its size. */
  lemma {:induction false} NoGrowth(start: Files, ss: seq<Files>, steps: seq<Step>, n: nat)
    requires Inv(start) && Run(start, ss, steps) && n <= |steps| && NoReserve(steps)
    requires start.filesAllocated + Registers(steps[..n]) <= |start.files|
    ensures |ss[n].files| == |start.files| && ss[n].filesAllocated <= start.filesAllocated + Registers(steps[..n])
  {
    if n > 0 {
      var s, step := ss[n - 1], steps[n - 1];
      assert steps[..n][..n - 1] == steps[..n - 1];
      NoGrowth(start, ss, steps, n - 1);
      RunKeeps(start, ss, steps, n - 1);
      match step
      case Register(fd) =>
        RegisteredTable(s, fd);
        UsedFull(s.files);
      case Drop(i) =>
        DroppedKeeps(s, i);
        UsedUpdate(s.files, s.live[i].slot, -1);
    }
  }

  /** After `reserveFiles(num)` the next `num` registrations do not grow the table. */
  lemma ReserveHolds(start: Files, num: nat, ss: seq<Files>, steps: seq<Step>)
    requires Inv(start) && Run(FilesReserved(start, num), ss, steps) && NoReserve(steps) && Registers(steps) <= num
    ensures |ss[|steps|].files| == |FilesReserved(start, num).files|
  {
    ReservedKeeps(start, num);
    assert steps[..|steps|] == steps;
    NoGrowth(FilesReserved(start, num), ss, steps, |steps|);
  }
}
