/** The intercepted calls, in place over the registries and the kernel. */
module IonShim {
  import opened Basics
  import opened IonKernel
  import opened IonCascade
  import opened IonRegistry
  import opened ScanText

  /** struct shim_ion_allocation_data, filled in by the caller; the shim writes the handle. */
  class AllocationRequest {
    const len: nat
    const align: nat
    const mask: nat
    const flags: nat
    var handle: int

    constructor (len: nat, align: nat, mask: nat, flags: nat)
      ensures this.len == len && this.align == align && this.mask == mask && this.flags == flags
    {
      this.len, this.align, this.mask, this.flags, handle := len, align, mask, flags, 0;
    }

    function Order(forced: nat): seq<Candidate> {
      CascadeOrder(align, flags, mask, forced)
    }
  }

  /** struct shim_ion_fd_data: the handle is the caller's, the descriptor is the answer. */
  class FdRequest {
    const handle: int
    var fd: int

    constructor (handle: int)
      ensures this.handle == handle
    {
      this.handle, fd := handle, 0;
    }
  }

  predicate IonPath(pathname: Text) {
    After(pathname, Bytes("/dev/ion")).Some?
  }

  /** A path names the device iff "/dev/ion" stands anywhere in it. */
  lemma IonPathMeans(pathname: Text)
    ensures IonPath(pathname) <==> exists a, b :: pathname == a + [47, 100, 101, 118, 47, 105, 111, 110] + b
  {
    var key := Bytes("/dev/ion");
    assert key == [47, 100, 101, 118, 47, 105, 111, 110];
    if IonPath(pathname) {
      var k := FindIn(pathname, key, 0).value;
      assert pathname == pathname[..k] + key + pathname[k + |key|..];
    }
    if a, b :| pathname == a + [47, 100, 101, 118, 47, 105, 111, 110] + b {
      assert pathname[|a|..|a| + 8] == key;
      assert OccursAt(pathname, key, |a|);
    }
  }

  /** The descriptors of the opens that succeeded on an ION path. */
  function IonOpens(opens: seq<(Text, int)>): seq<int> {
    if opens == [] then []
    else IonOpens(DropLast(opens)) + if IonPath(Last(opens).0) && Last(opens).1 >= 0 then [Last(opens).1] else []
  }

  lemma OneMoreOpen(opens: seq<(Text, int)>, pathname: Text, fd: int)
    ensures var tracked := TrackedAll(IonOpens(opens));
            TrackedAll(IonOpens(opens + [(pathname, fd)])) ==
            if IonPath(pathname) && fd >= 0 then Tracked(tracked, fd) else tracked
  {
    assert DropLast(opens + [(pathname, fd)]) == opens;
    if IonPath(pathname) && fd >= 0 {
      FoldOne(Tracked, [], IonOpens(opens), fd);
    } else {
      assert IonOpens(opens) + [] == IonOpens(opens);
    }
  }

  class Shim {
    const kernel: Kernel
    const allocs: AllocRegistry
    const mapped: MappedRegistry
    const devices: DeviceList
    const forcedMask: nat
    ghost var opens: seq<(Text, int)>  // every open so far, with its result

    ghost predicate Valid()
      reads this, kernel, allocs, allocs.records, mapped, mapped.records, devices, devices.fds
    {
      && kernel.Valid() && allocs.Valid() && mapped.Valid() && devices.Valid()
      && allocs.records as object != mapped.records as object
      && allocs.records as object != devices.fds as object
      && mapped.records as object != devices.fds as object
      && devices.View() == TrackedAll(IonOpens(opens))
    }

    constructor (kernel: Kernel, forcedMask: nat)
      requires kernel.Valid()
      ensures Valid() && this.kernel == kernel && this.forcedMask == forcedMask
      ensures allocs.View() == RingOf(NO_ALLOC, []) && mapped.View() == RingOf(NO_MAPPED, []) && opens == []
    {
      this.kernel, this.forcedMask, opens := kernel, forcedMask, [];
      allocs := new AllocRegistry();
      mapped := new MappedRegistry();
      devices := new DeviceList();
    }

    /** Map the handle, map the descriptor, and give both back. */
    method ValidateHandle(dev: int, len: nat, handle: int) returns (rc: int, ghost p: Probe)
      requires kernel.Valid()
      modifies kernel
      ensures kernel.Valid() && kernel.trace == old(kernel.trace) + ProbeEvents(dev, len, handle, p)
      ensures rc == if p.Mapped? then 0 else -1
    {
      hide PossibleRun, Replay;
      var mapRc, fd := kernel.IonExport(dev, MapRequest, handle);
      if mapRc < 0 {
        return -1, NoDescriptor;
      }
      var probe := kernel.DoMmap(fd, MmapArgs(0, len, PROT_READ_WRITE, MAP_SHARED, 0));
      if probe == MAP_FAILED {
        kernel.DoClose(fd);
        return -1, NoMapping(fd);
      }
      kernel.DoMunmap(probe, len);
      kernel.DoClose(fd);
      return 0, Mapped(fd, probe);
    }

    method TryCombo(dev: int, len: nat, align: nat, flags: nat, mask: nat)
      returns (rc: int, handle: int, ghost o: Outcome)
      requires kernel.Valid()
      modifies kernel
      ensures kernel.Valid()
      ensures kernel.trace == old(kernel.trace) + TryEvents(dev, len, Candidate(align, flags, mask), o)
      ensures ProperOutcome(o) && rc == (if o.Works? then 0 else -1)
      ensures rc == 0 ==> handle == o.handle
    {
      hide PossibleRun, Replay, ProbeEvents;
      rc, handle := kernel.IonAlloc(dev, len, align, flags, mask);
      if rc < 0 {
        return -1, handle, Refused;
      }
      ghost var p;
      rc, p := ValidateHandle(dev, len, handle);
      if rc != 0 {
        var freeRc := kernel.IonFree(dev, handle);
        return -1, handle, Rejected(handle, p, freeRc >= 0);
      }
      return 0, handle, Works(handle, p.fd, p.addr);
    }

    method GridSearch(dev: int, len: nat, align: nat, flags: nat, skip: nat)
      returns (rc: int, handle: int, heapId: nat, ghost os: seq<Outcome>)
      requires kernel.Valid()
      modifies kernel
      ensures kernel.Valid() && Searched(GridOrder(skip, align, flags), os)
      ensures kernel.trace == old(kernel.trace) + SearchEvents(dev, len, GridOrder(skip, align, flags), os)
      ensures rc == if Found(os) then 0 else -1
      ensures Found(os) ==> handle == Last(os).handle && heapId < NUM_HEAP_IDS
                            && GridOrder(skip, align, flags)[|os| - 1].mask == Pow2(heapId)
    {
      hide SearchEvents, Grid;
      ghost var before := kernel.trace;
      os, handle, heapId := [], 0, 0;
      NothingTried(before, dev, len, skip, align, flags);
      while heapId < NUM_HEAP_IDS
        invariant heapId <= NUM_HEAP_IDS && kernel.Valid()
        invariant SoFar(before, kernel.trace, dev, len, Grid(heapId, skip, align, flags), os)
      {
        if !BitSet(skip, heapId) {
          rc, handle, os := TryHeap(dev, len, align, flags, skip, heapId, before, os);
          if rc == 0 {
            return;
          }
        } else {
          HeapSkipped(heapId, skip, align, flags);
        }
        heapId := heapId + 1;
      }
      AllTried(before, kernel.trace, dev, len, GridOrder(skip, align, flags), os);
      rc := -1;
    }

    /** The two inner loops of the grid search: one heap under every alignment and flag word. */
    method TryHeap(dev: int, len: nat, align: nat, flags: nat, skip: nat, heapId: nat,
                   ghost before: seq<Event>, ghost os0: seq<Outcome>)
      returns (rc: int, handle: int, ghost os: seq<Outcome>)
      requires kernel.Valid() && heapId < NUM_HEAP_IDS && !BitSet(skip, heapId)
      requires SoFar(before, kernel.trace, dev, len, Grid(heapId, skip, align, flags), os0)
      modifies kernel
      ensures kernel.Valid() && (rc == 0 || rc == -1)
      ensures rc == -1 ==> SoFar(before, kernel.trace, dev, len, Grid(heapId + 1, skip, align, flags), os)
      ensures rc == 0 ==>
                && Searched(GridOrder(skip, align, flags), os) && Found(os) && handle == Last(os).handle
                && GridOrder(skip, align, flags)[|os| - 1].mask == Pow2(heapId)
                && kernel.trace == before + SearchEvents(dev, len, GridOrder(skip, align, flags), os)
    {
      hide SearchEvents, Grid, Row, Block, TryEvents, SoFar, PossibleRun, Replay;
      var aligns := [align, RoundAlign(align)];
      var alignCount := if aligns[0] == aligns[1] then 1 else 2;
      var flagWords := [flags, Uncached(flags)];
      var flagCount := if flagWords[0] == flagWords[1] then 1 else 2;
      var mask := Pow2(heapId);
      ghost var alignVs, fs := AlignVariants(align), FlagVariants(flags);
      ghost var start := Grid(heapId, skip, align, flags);
      ghost var tried := start;
      os, handle := os0, 0;
      NoRows(start, mask, alignVs, fs);
      var i := 0;
      while i < alignCount
        invariant i <= alignCount && kernel.Valid()
        invariant tried == start + Block(mask, alignVs[..i], fs)
        invariant SoFar(before, kernel.trace, dev, len, tried, os)
      {
        ghost var rowStart := tried;
        var j := 0;
        while j < flagCount
          invariant j <= flagCount && kernel.Valid()
          invariant tried == rowStart + Row(mask, alignVs[i], fs)[..j]
          invariant SoFar(before, kernel.trace, dev, len, tried, os)
        {
          ghost var o, now := Refused, kernel.trace;
          rc, handle, o := TryCombo(dev, len, aligns[i], flagWords[j], mask);
          OneMore(before, now, kernel.trace, dev, len, tried, os, Candidate(aligns[i], flagWords[j], mask), o);
          NextInRow(rowStart, mask, alignVs[i], fs, j);
          os, tried := os + [o], tried + [Candidate(aligns[i], flagWords[j], mask)];
          if rc == 0 {
            InTheGrid(heapId, skip, align, flags, i, j);
            FoundEarly(before, kernel.trace, dev, len, tried, GridOrder(skip, align, flags), os);
            return;
          }
          j := j + 1;
        }
        RowDone(start, mask, alignVs, fs, i);
        i := i + 1;
      }
      HeapDone(heapId, skip, align, flags);
      rc := -1;
    }

    /** The candidates tried so far have all failed, and these are the calls that made. */
    static predicate SoFar(before: seq<Event>, now: seq<Event>, dev: int, len: nat,
                           tried: seq<Candidate>, os: seq<Outcome>) {
      && |os| == |tried|
      && (forall o <- os :: !o.Works? && ProperOutcome(o))
      && now == before + SearchEvents(dev, len, tried, os)
    }

    static lemma NothingTried(before: seq<Event>, dev: int, len: nat, skip: nat, align: nat, flags: nat)
      ensures SoFar(before, before, dev, len, Grid(0, skip, align, flags), [])
    {
    }

    static lemma AllTried(before: seq<Event>, now: seq<Event>, dev: int, len: nat,
                          tried: seq<Candidate>, os: seq<Outcome>)
      requires SoFar(before, now, dev, len, tried, os)
      ensures Searched(tried, os) && !Found(os)
    {
      assert os != [] ==> Last(os) in os;
    }

    static lemma OneMore(before: seq<Event>, now: seq<Event>, after: seq<Event>, dev: int, len: nat,
                         tried: seq<Candidate>, os: seq<Outcome>, c: Candidate, o: Outcome)
      requires SoFar(before, now, dev, len, tried, os) && ProperOutcome(o)
      requires after == now + TryEvents(dev, len, c, o)
      ensures after == before + SearchEvents(dev, len, tried + [c], os + [o])
      ensures !o.Works? ==> SoFar(before, after, dev, len, tried + [c], os + [o])
      ensures Searched(tried + [c], os + [o]) && |os| == |tried|
    {
      SearchEventsPrefix(dev, len, tried, tried + [c], os);
      SearchEventsSnoc(dev, len, tried + [c], os, o);
      Associative(before, SearchEvents(dev, len, tried, os), TryEvents(dev, len, c, o));
    }

    static lemma FoundEarly(before: seq<Event>, after: seq<Event>, dev: int, len: nat,
                            tried: seq<Candidate>, order: seq<Candidate>, os: seq<Outcome>)
      requires Searched(tried, os) && |os| == |tried| && Found(os) && tried <= order
      requires after == before + SearchEvents(dev, len, tried, os)
      ensures Searched(order, os) && after == before + SearchEvents(dev, len, order, os)
      ensures order[|os| - 1] == Last(tried)
    {
      SearchEventsPrefix(dev, len, tried, order, os);
    }

    static lemma NextInRow(rowStart: seq<Candidate>, mask: nat, align: nat, flags: seq<nat>, j: nat)
      requires j < |flags|
      ensures rowStart + Row(mask, align, flags)[..j] + [Candidate(align, flags[j], mask)]
           == rowStart + Row(mask, align, flags)[..j + 1]
    {
    }

    static lemma NoRows(before: seq<Candidate>, mask: nat, aligns: seq<nat>, flags: seq<nat>)
      ensures before + Block(mask, aligns[..0], flags) == before
    {
    }

    static lemma RowDone(before: seq<Candidate>, mask: nat, aligns: seq<nat>, flags: seq<nat>, i: nat)
      requires i < |aligns|
      ensures before + Block(mask, aligns[..i], flags) + Row(mask, aligns[i], flags)[..|flags|]
           == before + Block(mask, aligns[..i + 1], flags)
    {
      assert DropLast(aligns[..i + 1]) == aligns[..i];
    }

    static lemma HeapSkipped(h: nat, skip: nat, align: nat, flags: nat)
      requires BitSet(skip, h)
      ensures Grid(h + 1, skip, align, flags) == Grid(h, skip, align, flags)
    {
    }

    static lemma HeapDone(h: nat, skip: nat, align: nat, flags: nat)
      requires !BitSet(skip, h)
      ensures Grid(h + 1, skip, align, flags) == Grid(h, skip, align, flags) +
              Block(Pow2(h), AlignVariants(align)[..|AlignVariants(align)|], FlagVariants(flags))
    {
      assert AlignVariants(align)[..|AlignVariants(align)|] == AlignVariants(align);
    }

    /** What has been tried at a position of the nested loops is a prefix of the grid. */
    static lemma InTheGrid(heapId: nat, skip: nat, align: nat, flags: nat, i: nat, j: nat)
      requires heapId < NUM_HEAP_IDS && !BitSet(skip, heapId)
      requires i < |AlignVariants(align)| && j < |FlagVariants(flags)|
      ensures var mask, fs := Pow2(heapId), FlagVariants(flags);
              Grid(heapId, skip, align, flags) + Block(mask, AlignVariants(align)[..i], fs)
                + Row(mask, AlignVariants(align)[i], fs)[..j + 1] <= GridOrder(skip, align, flags)
    {
      hide Pow2, Row;
      var mask, fs, aligns := Pow2(heapId), FlagVariants(flags), AlignVariants(align);
      var before := Grid(heapId, skip, align, flags);
      RowDone(before, mask, aligns, fs, i);
      if i + 1 < |aligns| {
        RowDone(before, mask, aligns, fs, i + 1);
      }
      assert aligns[..|aligns|] == aligns;
      HeapDone(heapId, skip, align, flags);
      GridPrefix(heapId + 1, NUM_HEAP_IDS, skip, align, flags);
    }

    /** The request as it stands: kept if its handle passes the probe, else given back. */
    method TryRequest(dev: int, req: AllocationRequest) returns (rc: int, valid: bool, ghost o: Outcome)
      requires kernel.Valid()
      modifies kernel, req
      ensures kernel.Valid() && ProperOutcome(o)
      ensures kernel.trace == old(kernel.trace) + TryEvents(dev, req.len, Candidate(req.align, req.flags, req.mask), o)
      ensures valid == o.Works? && (valid ==> rc >= 0)
      ensures req.handle == if o.Refused? then old(req.handle) else o.handle
    {
      hide Replay, PossibleRun;
      var handle: int;
      rc, handle := kernel.IonAlloc(dev, req.len, req.align, req.flags, req.mask);
      if rc < 0 {
        return rc, false, Refused;
      }
      req.handle := handle;
      var validRc;
      ghost var p;
      validRc, p := ValidateHandle(dev, req.len, req.handle);
      if validRc == 0 {
        return rc, true, Works(handle, p.fd, p.addr);
      }
      var freeRc := kernel.IonFree(dev, req.handle);
      return rc, false, Rejected(handle, p, freeRc >= 0);
    }

    /** An intercepted ION_IOC_ALLOC. The search it makes, the calls it issues, what it
        returns and what it records; and, for every kernel, what it leaves behind: the
        handles of AllKept and nothing else, which is just the returned handle when every
        FREE succeeds. */
    method IoctlAlloc(dev: int, req: AllocationRequest) returns (rc: int, ghost os: seq<Outcome>)
      requires Valid()
      modifies kernel, allocs, allocs.records, req
      ensures Valid() && Searched(req.Order(forcedMask), os)
      ensures kernel.trace == old(kernel.trace) + SearchEvents(dev, req.len, req.Order(forcedMask), os)
      ensures Found(os) <==> rc >= 0
      ensures Found(os) ==> req.handle == Last(os).handle
                            && allocs.View() == Put(old(allocs.View()), AllocSlot(true, req.handle, req.len))
      ensures mapped.View() == old(mapped.View()) && devices.View() == old(devices.View())
      ensures Found(os) && |os| > 1 ==> rc == 0 && kernel.errno == 0
      ensures !Found(os) ==> rc == -1 && kernel.errno == ENODEV && allocs.View() == old(allocs.View())
      ensures !Found(os) ==> req.handle == if os[0].Rejected? then os[0].handle else old(req.handle)
      ensures kernel.res.fds == old(kernel.res.fds) && kernel.res.maps == old(kernel.res.maps)
      ensures kernel.res.live == old(kernel.res.live) + AllKept(dev, os) && AllKept(dev, os) !! old(kernel.res.live)
      ensures AllFreed(os) ==> AllKept(dev, os) == if Found(os) then {(dev, req.handle)} else {}
    {
      hide SearchEvents, Grid, TryEvents, ProbeEvents, PossibleRun, Replay, SoFar, AllKept, RingOf, Block;
      ghost var before, res := kernel.trace, kernel.res;
      ghost var order := req.Order(forcedMask);
      ghost var tried := [Candidate(req.align, req.flags, req.mask)];
      ghost var o: Outcome, now: seq<Event>;
      var handle: int, valid: bool;
      rc, valid, o := TryRequest(dev, req);
      BaselineDone(before, kernel.trace, dev, req.len, tried[0], o);
      os := [o];
      if valid {
        Settled(kernel, res, before, dev, req.len, tried, order, os);
        allocs.Record(req.handle, req.len);
        return;
      }

      if forcedMask != 0 && forcedMask != req.mask {
        now := kernel.trace;
        rc, handle, o := TryCombo(dev, req.len, req.align, req.flags, forcedMask);
        ghost var c := Candidate(req.align, req.flags, forcedMask);
        OneMore(before, now, kernel.trace, dev, req.len, tried, os, c, o);
        tried, os := tried + [c], os + [o];
        if rc == 0 {
          Settled(kernel, res, before, dev, req.len, tried, order, os);
          req.handle := handle;
          allocs.Record(handle, req.len);
          kernel.SetErrno(0);
          return 0, os;
        }
      }

      now := kernel.trace;
      ghost var heapId, gs;
      rc, handle, heapId, gs := GridSearch(dev, req.len, req.align, req.flags, req.mask);
      GridAfter(before, now, kernel.trace, dev, req.len, tried, os, GridOrder(req.mask, req.align, req.flags), gs);
      os := os + gs;
      assert order == tried + GridOrder(req.mask, req.align, req.flags);
      Settled(kernel, res, before, dev, req.len, order, order, os);
      if rc == 0 {
        req.handle := handle;
        allocs.Record(handle, req.len);
        kernel.SetErrno(0);
        return 0, os;
      }
      kernel.SetErrno(ENODEV);
      return -1, os;
    }

    static lemma BaselineDone(before: seq<Event>, after: seq<Event>, dev: int, len: nat, c: Candidate, o: Outcome)
      requires ProperOutcome(o) && after == before + TryEvents(dev, len, c, o)
      ensures Searched([c], [o]) && after == before + SearchEvents(dev, len, [c], [o])
      ensures !o.Works? ==> SoFar(before, after, dev, len, [c], [o])
    {
      assert [] + [o] == [o] && SearchEvents(dev, len, [c], []) == [];
      hide SearchEvents, TryEvents;
      SearchEventsSnoc(dev, len, [c], [], o);
    }

    static lemma GridAfter(before: seq<Event>, now: seq<Event>, after: seq<Event>, dev: int, len: nat,
                           tried: seq<Candidate>, os: seq<Outcome>, grid: seq<Candidate>, gs: seq<Outcome>)
      requires SoFar(before, now, dev, len, tried, os) && Searched(grid, gs)
      requires after == now + SearchEvents(dev, len, grid, gs)
      ensures Searched(tried + grid, os + gs) && |os + gs| >= |os|
      ensures after == before + SearchEvents(dev, len, tried + grid, os + gs)
      ensures Found(os + gs) <==> Found(gs)
      ensures Found(gs) ==> Last(os + gs) == Last(gs)
    {
      SearchEventsAppend(dev, len, tried, os, grid, gs);
      Associative(before, SearchEvents(dev, len, tried, os), SearchEvents(dev, len, grid, gs));
      assert forall o <- os + gs :: o in os || o in gs;
      assert Found(os) ==> Last(os) in os;
      if gs == [] {
        assert os + gs == os;
      } else {
        assert Last(os + gs) == Last(gs);
      }
    }

    /** A finished search has made the calls of its order's prefix and left what they leave. */
    static lemma Settled(k: Kernel, res: Resources, before: seq<Event>, dev: int, len: nat,
                         tried: seq<Candidate>, order: seq<Candidate>, os: seq<Outcome>)
      requires k.Valid() && PossibleRun(k.start, before) && res == Replay(k.start, before)
      requires Searched(tried, os) && tried <= order && (tried == order || (Found(os) && |os| == |tried|))
      requires k.trace == before + SearchEvents(dev, len, tried, os)
      ensures Searched(order, os) && k.trace == before + SearchEvents(dev, len, order, os)
      ensures k.res.fds == res.fds && k.res.maps == res.maps
      ensures k.res.live == res.live + AllKept(dev, os) && AllKept(dev, os) !! res.live
      ensures AllFreed(os) ==> AllKept(dev, os) == if Found(os) then {(dev, Last(os).handle)} else {}
    {
      SearchEventsPrefix(dev, len, tried, order, os);
      Append(k.start, before, SearchEvents(dev, len, order, os));
      SearchLeaves(res, dev, len, order, os);
      if AllFreed(os) {
        KeptIsReturned(dev, order, os);
      }
    }

    /** An intercepted ION_IOC_MAP or ION_IOC_SHARE: the descriptor is recorded, with the
        length the allocation ring gives for its handle, if it gives one. */
    method IoctlExport(dev: int, request: ExportRequest, req: FdRequest) returns (rc: int)
      requires Valid()
      modifies kernel, mapped, mapped.records, req
      ensures Valid()
      ensures kernel.trace == old(kernel.trace)
                              + [Export(dev, request, req.handle, if rc >= 0 then Some(req.fd) else None)]
      ensures rc < 0 ==> req.fd == old(req.fd)
      ensures mapped.View() ==
              var len := Lookup(old(allocs.View()).slots, req.handle);
              if rc >= 0 && len.Some? then Put(old(mapped.View()), MappedSlot(true, req.fd, len.value, false))
              else old(mapped.View())
    {
      var fd;
      rc, fd := kernel.IonExport(dev, request, req.handle);
      if rc >= 0 {
        req.fd := fd;
        var found, len := allocs.LookupLen(req.handle);
        if found {
          mapped.Record(req.fd, len);
        }
      }
    }

    /** What an intercepted open adds to the system's: the descriptors remembered are at all
        times the first four opened successfully on an ION path. */
    method NoteOpened(pathname: Text, fd: int)
      requires Valid()
      modifies `opens, devices, devices.fds
      ensures Valid() && opens == old(opens) + [(pathname, fd)]
      ensures devices.View() == FirstFour(IonOpens(opens))
    {
      ghost var before := opens;
      opens := opens + [(pathname, fd)];
      if fd >= 0 && After(pathname, Bytes("/dev/ion")).Some? {
        devices.Track(fd);
      }
      OneMoreOpen(before, pathname, fd);
      FirstFourTracked(IonOpens(opens));
    }

    /** An intercepted mmap. Only when the kernel answers ENODEV is the first fitting
        recorded descriptor mapped instead, and it is consumed only if that works. */
    method DoMmap(fd: int, args: MmapArgs) returns (addr: int, ghost firstErrno: int)
      requires Valid()
      modifies kernel, mapped.records
      ensures Valid()
      ensures var c := Find(old(mapped.View()), args.len, fd);
              var answer := if addr != MAP_FAILED then Some(addr) else None;
              if kernel.trace == old(kernel.trace) + [Mmap(fd, args, answer)] then
                && mapped.View() == old(mapped.View())
                && (addr != MAP_FAILED || firstErrno != ENODEV || (c == -1 && kernel.errno == ENODEV))
              else
                && firstErrno == ENODEV && c >= 0
                && var chosen := old(mapped.View()).slots[c].fd;
                && kernel.trace == old(kernel.trace) + [Mmap(fd, args, None), Mmap(chosen, args, answer)]
                && mapped.View() == (if addr != MAP_FAILED then Consume(old(mapped.View()), c) else old(mapped.View()))
                && (addr == MAP_FAILED ==> kernel.errno == ENODEV)
      ensures addr == MAP_FAILED && firstErrno == ENODEV
                && (exists s <- old(mapped.View()).slots ::
                      s.valid && !s.consumed && s.len == args.len && s.fd != fd)
              ==> |kernel.trace| == |old(kernel.trace)| + 2
    {
      addr := kernel.DoMmap(fd, args);
      firstErrno := kernel.errno;
      if addr != MAP_FAILED {
        return;
      }
      if kernel.errno != ENODEV {
        return;
      }
      // whether this is a known device only goes to the log
      var isDevice := devices.IsDevice(fd);
      var candidate := mapped.FindCandidate(args.len, fd);
      if candidate < 0 {
        kernel.SetErrno(ENODEV);
        return;
      }
      var candidateFd := mapped.records[candidate].fd;
      addr := kernel.DoMmap(candidateFd, args);
      assert |kernel.trace| == |old(kernel.trace)| + 2;
      if addr == MAP_FAILED {
        kernel.SetErrno(ENODEV);
        return;
      }
      mapped.MarkConsumed(candidate);
    }
  }
}
