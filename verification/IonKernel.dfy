/** What the ION shim sees of the kernel: the system calls it makes, in order, and the
    handles, descriptors and mappings they leave behind. */
module IonKernel {
  import opened Basics

  const ENODEV: int := 19
  const PROT_READ_WRITE: int := 3
  const MAP_SHARED: int := 1
  const MAP_FAILED: int := -1

  /** The arguments of an mmap other than its descriptor. */
  datatype MmapArgs = MmapArgs(addr: int, len: nat, prot: int, flags: int, offset: int)

  /** The two requests that turn a handle into a descriptor. */
  datatype ExportRequest = MapRequest | ShareRequest

  /** One system call with its answer; None is a refusal. */
  datatype Event =
    | Alloc(dev: int, len: nat, align: nat, flags: nat, mask: nat, handle: Option<int>)
    | Free(dev: int, freed: int, ok: bool)
    | Export(dev: int, request: ExportRequest, exported: int, fd: Option<int>)
    | Mmap(target: int, args: MmapArgs, mapped: Option<int>)
    | Munmap(addr: int, length: nat)
    | Close(closed: int)

  /** Live ION handles (a handle belongs to the device descriptor it came from), open
      buffer descriptors and live mappings of the process. */
  datatype Resources = Resources(live: set<(int, int)>, fds: set<int>, maps: set<int>)

  function Apply(r: Resources, e: Event): Resources {
    match e
    case Alloc(dev, _, _, _, _, Some(h)) => r.(live := r.live + {(dev, h)})
    case Free(dev, h, true) => r.(live := r.live - {(dev, h)})
    case Export(_, _, _, Some(fd)) => r.(fds := r.fds + {fd})
    case Mmap(_, _, Some(a)) => r.(maps := r.maps + {a})
    case Munmap(a, _) => r.(maps := r.maps - {a})
    case Close(fd) => r.(fds := r.fds - {fd})
    case _ => r
  }

  /** The answers a kernel can give: new names are fresh. */
  predicate Possible(r: Resources, e: Event) {
    match e
    case Alloc(dev, _, _, _, _, Some(h)) => (dev, h) !in r.live
    case Export(_, _, _, Some(fd)) => fd !in r.fds
    case Mmap(_, _, Some(a)) => a !in r.maps
    case _ => true
  }

  /** The calls a careful client makes: nothing is freed, exported, unmapped or closed
      that it does not hold. */
  predicate Careful(r: Resources, e: Event) {
    match e
    case Free(dev, h, _) => (dev, h) in r.live
    case Export(dev, _, h, _) => (dev, h) in r.live
    case Munmap(a, _) => a in r.maps
    case Close(fd) => fd in r.fds
    case _ => true
  }

  function Replay(r: Resources, es: seq<Event>): Resources {
    Fold(Apply, r, es)
  }

  predicate PossibleRun(r: Resources, es: seq<Event>) {
    Along(Apply, Possible, r, es)
  }

  predicate CarefulRun(r: Resources, es: seq<Event>) {
    Along(Apply, Careful, r, es)
  }

  lemma Snoc(r: Resources, es: seq<Event>, e: Event)
    ensures Replay(r, es + [e]) == Apply(Replay(r, es), e)
    ensures PossibleRun(r, es + [e]) == (PossibleRun(r, es) && Possible(Replay(r, es), e))
    ensures CarefulRun(r, es + [e]) == (CarefulRun(r, es) && Careful(Replay(r, es), e))
  {
    FoldOne(Apply, r, es, e);
    AlongOne(Apply, Possible, r, es, e);
    AlongOne(Apply, Careful, r, es, e);
  }

  lemma Append(r: Resources, a: seq<Event>, b: seq<Event>)
    ensures Replay(r, a + b) == Replay(Replay(r, a), b)
    ensures PossibleRun(r, a + b) == (PossibleRun(r, a) && PossibleRun(Replay(r, a), b))
    ensures CarefulRun(r, a + b) == (CarefulRun(r, a) && CarefulRun(Replay(r, a), b))
  {
    FoldAppend(Apply, r, a, b);
    AlongAppend(Apply, Possible, r, a, b);
    AlongAppend(Apply, Careful, r, a, b);
  }

  /** The kernel's side. Every method answers as it pleases, within Possible, and logs the
      call it received; errno is left arbitrary by a refusal. */
  class Kernel {
    ghost const start: Resources
    var res: Resources
    var trace: seq<Event>
    var errno: int

    ghost predicate Valid()
      reads this
    {
      PossibleRun(start, trace) && res == Replay(start, trace)
    }

    constructor (r: Resources)
      ensures Valid() && start == r && trace == []
    {
      start, res, trace, errno := r, r, [], 0;
    }

    method Log(e: Event)
      requires Valid() && Possible(res, e)
      modifies this
      ensures Valid() && trace == old(trace) + [e] && errno == old(errno)
    {
      Snoc(start, trace, e);
      res := Apply(res, e);
      trace := trace + [e];
    }

    method IonAlloc(dev: int, len: nat, align: nat, flags: nat, mask: nat) returns (rc: int, handle: int)
      requires Valid()
      modifies this
      ensures Valid()
      ensures trace == old(trace) + [Alloc(dev, len, align, flags, mask, if rc >= 0 then Some(handle) else None)]
    {
      rc, handle, errno := *, *, *;
      if (dev, handle) in res.live {
        rc := -1;
      }
      Log(Alloc(dev, len, align, flags, mask, if rc >= 0 then Some(handle) else None));
    }

    method IonFree(dev: int, handle: int) returns (rc: int)
      requires Valid()
      modifies this
      ensures Valid()
      ensures trace == old(trace) + [Free(dev, handle, rc >= 0)]
    {
      rc, errno := *, *;
      Log(Free(dev, handle, rc >= 0));
    }

    method IonExport(dev: int, request: ExportRequest, handle: int) returns (rc: int, fd: int)
      requires Valid()
      modifies this
      ensures Valid()
      ensures trace == old(trace) + [Export(dev, request, handle, if rc >= 0 then Some(fd) else None)]
    {
      rc, fd, errno := *, *, *;
      if fd in res.fds {
        rc := -1;
      }
      Log(Export(dev, request, handle, if rc >= 0 then Some(fd) else None));
    }

    method DoMmap(fd: int, args: MmapArgs) returns (addr: int)
      requires Valid()
      modifies this
      ensures Valid()
      ensures trace == old(trace) + [Mmap(fd, args, if addr != MAP_FAILED then Some(addr) else None)]
    {
      addr, errno := *, *;
      if addr in res.maps {
        addr := MAP_FAILED;
      }
      Log(Mmap(fd, args, if addr != MAP_FAILED then Some(addr) else None));
    }

    method DoMunmap(addr: int, len: nat)
      requires Valid()
      modifies this
      ensures Valid() && trace == old(trace) + [Munmap(addr, len)]
    {
      Log(Munmap(addr, len));
    }

    method DoClose(fd: int)
      requires Valid()
      modifies this
      ensures Valid() && trace == old(trace) + [Close(fd)]
    {
      Log(Close(fd));
    }

    method SetErrno(e: int)
      requires Valid()
      modifies this`errno
      ensures Valid() && errno == e
    {
      errno := e;
    }
  }
}
