/** The `IoUring` class of `src/io_uring.cpp`, method by method, against the two state machines. The
    queues and the file table of the kernel side are fields of their own. */
module IoUring {
  import H = RingHandlers
  import F = RingFiles

  class IoUring {
    var handlers: seq<H.Handler>
    var files: seq<int>
    var filesAllocated: int

    // the ring: SQEs handed out, requests submitted, CQEs to be seen, files registered
    var sqes: seq<H.Ptr>
    var inFlight: seq<H.Ptr>
    var cqes: seq<H.Cqe>
    var kernelFiles: seq<int>

    // history
    ghost var calls: seq<H.Call>
    ghost var registered: multiset<H.Handler>
    ghost var live: seq<F.FileHandle>

    ghost function Ring(): H.Ring
      reads this
    {
      H.Ring(handlers, sqes, inFlight, cqes, calls, registered)
    }

    ghost function Table(): F.Files
      reads this
    {
      F.Files(files, filesAllocated, kernelFiles, live)
    }

    ghost predicate Valid()
      reads this
    {
      H.Inv(Ring()) && F.Inv(Table())
    }

    constructor ()
      ensures Valid() && Ring() == H.FRESH && Table() == F.FRESH
    {
      handlers, files, filesAllocated := [], [], 0;
      sqes, inFlight, cqes, kernelFiles := [], [], [], [];
      calls, registered, live := [], multiset{}, [];
      new;
      H.FreshBalanced();
      F.FreshInv();
    }

    /** `handleCQE` of a handler, which does not come back into the ring. */
    ghost method HandleCqe(h: H.Handler, res: int)
      modifies `calls
      ensures calls == old(calls) + [H.Call(h, res)]
    {
      calls := calls + [H.Call(h, res)];
    }

    /** `dropHandler` */
    method DropHandler(p: H.Ptr, res: int)
      requires p.To? ==> p.h in handlers
      modifies `handlers, `calls
      ensures Ring() == H.Dropped(old(Ring()), p, res)
      ensures calls == old(calls) + if p.To? then [H.Call(p.h, res)] else []
    {
      if p.Null? {
        return;
      }
      var it := 0;
      while handlers[it] != p.h
        invariant it <= H.IndexOf(handlers, p.h) < |handlers|
        invariant forall k | 0 <= k < it :: handlers[k] != p.h
        decreases |handlers| - it
      {
        it := it + 1;
      }
      IndexIs(handlers, p.h, it);
      var back := |handlers| - 1;
      if it != back {
        handlers := handlers[it := handlers[back]][back := handlers[it]];
      }
      handlers := handlers[..back];
      HandleCqe(p.h, res);
      assert handlers == H.Removed(old(handlers), p.h);
    }

    lemma IndexIs(hs: seq<H.Handler>, h: H.Handler, k: nat)
      requires k < |hs| && hs[k] == h && forall i | 0 <= i < k :: hs[i] != h
      ensures h in hs && H.IndexOf(hs, h) == k
    {
      var m := H.IndexOf(hs, h);
    }

    /** `getSQE`: a fresh SQE carries no user data. */
    method GetSqe() returns (i: nat)
      requires Valid()
      modifies `sqes
      ensures Valid() && Ring() == H.GotSqe(old(Ring()))
      ensures i == |old(sqes)| && sqes == old(sqes) + [H.Null]
    {
      H.GotSqeKeeps(Ring());
      i := |sqes|;
      sqes := sqes + [H.Null];
    }

    /** `setHandler` */
    method SetHandler(i: nat, p: H.Ptr)
      requires Valid() && i < |sqes|
      modifies `handlers, `sqes, `calls, `registered
      ensures old(sqes[i]).To? ==> old(sqes[i]).h in old(handlers)
      ensures Valid() && Ring() == H.HandlerSet(old(Ring()), i, p)
      ensures sqes == old(sqes)[i := p]
      ensures var was := old(sqes[i]);
        calls == old(calls) + if was != p && was.To? then [H.Call(was.h, -H.ECANCELED)] else []
    {
      H.HandlerSetKeeps(Ring(), i, p);
      var oldh := sqes[i];
      if oldh == p {
        return;
      }
      DropHandler(oldh, -H.ECANCELED);
      if p.To? {
        handlers := handlers + [p.h];
        registered := registered + multiset{p.h};
      }
      sqes := sqes[i := p];
    }

    /** `submit` */
    method Submit()
      requires Valid()
      modifies `sqes, `inFlight
      ensures Valid() && Ring() == H.Submitted(old(Ring()))
      ensures sqes == [] && inFlight == old(inFlight) + old(sqes)
    {
      H.SubmittedKeeps(Ring());
      inFlight := inFlight + sqes;
      sqes := [];
    }

    /** `cancelHandler` */
    method CancelHandler()
      requires Valid()
      modifies `sqes, `inFlight
      ensures Valid() && Ring() == H.Canceled(old(Ring()))
      ensures sqes == [] && inFlight == old(inFlight) + (old(sqes) + [H.Null])
    {
      var _ := GetSqe();
      Submit();
    }

    /** The kernel finishes one of its requests and posts the CQE with the same user data. */
    method KernelCompletes(k: nat, res: int)
      requires Valid() && k < |inFlight|
      modifies `inFlight, `cqes
      ensures Valid() && Ring() == H.Completed(old(Ring()), k, res)
      ensures cqes == old(cqes) + [H.Cqe(old(inFlight)[k], res)]
    {
      H.CompletedKeeps(Ring(), k, res);
      cqes := cqes + [H.Cqe(inFlight[k], res)];
      inFlight := inFlight[..k] + inFlight[k + 1..];
    }

    /** `process` */
    method Process()
      requires Valid()
      modifies `handlers, `cqes, `calls
      ensures H.Inv(old(Ring())) && H.Processable(old(Ring()))
      ensures Valid() && Ring() == H.Processed(old(Ring()))
      ensures cqes == [] && calls == old(calls) + H.CallsFor(old(cqes))
    {
      H.ProcessedCalls(Ring());
      while cqes != []
        invariant H.Inv(Ring()) && H.Processable(Ring()) && H.Processable(old(Ring()))
        invariant H.Processed(Ring()) == H.Processed(old(Ring()))
        invariant F.Inv(Table())
        decreases |cqes|
      {
        var cqe := cqes[0];
        H.ReapedKeeps(Ring());
        DropHandler(cqe.userData, cqe.res);
        cqes := cqes[1..];
      }
    }

    /** The destructor. The queues are gone before the handlers are called. */
    method Destroy()
      requires Valid()
      modifies `handlers, `sqes, `inFlight, `cqes, `calls
      ensures Ring() == H.Destroyed(old(Ring()))
      ensures |calls| == |old(calls)| + |old(handlers)| && calls[..|old(calls)|] == old(calls)
      ensures forall j | 0 <= j < |old(handlers)| ::
        calls[|old(calls)| + j] == H.Call(old(handlers)[j], -H.ECANCELED)
    {
      sqes, inFlight, cqes := [], [], [];
      for i := 0 to |handlers|
        invariant handlers == old(handlers) && registered == old(registered)
        invariant sqes == [] && inFlight == [] && cqes == []
        invariant calls == old(calls) + H.CancelAll(handlers)[..i]
      {
        HandleCqe(handlers[i], -H.ECANCELED);
      }
      handlers := [];
    }

    // -------------------------------------------------------------- files

    /** `setFile` */
    method SetFile(slot: nat, fd: int)
      requires slot < |files|
      modifies `files, `filesAllocated
      ensures Table() == F.FileSet(old(Table()), slot, fd)
    {
      if files[slot] == -1 && files[slot] != fd {
        filesAllocated := filesAllocated + 1;
      } else if fd == -1 && files[slot] != fd {
        filesAllocated := filesAllocated - 1;
      }
      files := files[slot := fd];
    }

    /** `updateFile` */
    method UpdateFile(slot: nat, fd: int)
      requires slot < |files| && slot < |kernelFiles|
      modifies `files, `filesAllocated, `kernelFiles
      ensures Table() == F.FileUpdated(old(Table()), slot, fd)
    {
      SetFile(slot, fd);
      kernelFiles := kernelFiles[slot := files[slot]];
    }

    /** `reserveFiles` */
    method ReserveFiles(num: nat)
      requires Valid()
      modifies `files, `kernelFiles
      ensures old(filesAllocated) >= 0
      ensures Valid() && Table() == F.FilesReserved(old(Table()), num)
    {
      F.ReservedKeeps(Table(), num);
      var newSize := F.Max(7, num + filesAllocated);
      if |files| < newSize {
        kernelFiles := [];
        files := F.Grown(files, newSize);
        kernelFiles := files;
      }
    }

    /** `registerFile` */
    method RegisterFile(fd: int) returns (handle: F.FileHandle)
      requires Valid()
      modifies `files, `filesAllocated, `kernelFiles, `live
      ensures |old(kernelFiles)| == |old(files)| && Table() == F.FileRegistered(old(Table()), fd)
      ensures handle == F.FileHandle(F.FirstFree(old(files)), fd) && live == old(live) + [handle]
      ensures Valid() <==> fd != -1
    {
      F.RegisteredKeeps(Table(), fd);
      var slot := 0;
      while slot < |files|
        invariant slot <= |files| && forall k | 0 <= k < slot :: files[k] != -1
      {
        if files[slot] == -1 {
          assert slot == F.FirstFree(files);
          UpdateFile(slot, fd);
          handle := F.FileHandle(slot, fd);
          live := live + [handle];
          return;
        }
        slot := slot + 1;
      }
      assert slot == F.FirstFree(files);
      kernelFiles := [];
      files := F.Grown(files, F.Max(7, |files| * 2 + 1));
      SetFile(slot, fd);
      kernelFiles := files;
      handle := F.FileHandle(slot, fd);
      live := live + [handle];
    }

    /** `FileHandle::drop` of the live handle at index `i` */
    method DropHandle(ghost i: nat, handle: F.FileHandle)
      requires Valid() && i < |live| && live[i] == handle
      modifies `files, `filesAllocated, `kernelFiles, `live
      ensures old(live[i]).slot < |old(files)| == |old(kernelFiles)|
      ensures Valid() && Table() == F.HandleDropped(old(Table()), i)
      ensures files == old(files)[handle.slot := -1]
    {
      F.DroppedKeeps(Table(), i);
      UpdateFile(handle.slot, -1);
      live := live[..i] + live[i + 1..];
    }
  }
}
