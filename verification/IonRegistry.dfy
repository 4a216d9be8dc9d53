/** The shim's registries: two overwrite rings and a capped list of device descriptors. Each
    is a class over fixed arrays, proved against functions on values; the concurrent model
    takes the same functions as its atomic lock sections. */
module IonRegistry {
  import opened Basics

  const RING: nat := 16
  const MAX_DEVICE_FDS: nat := 4

  // ----- rings as values

  datatype Ring<T> = Ring(slots: seq<T>, next: nat)

  predicate Shape<T>(r: Ring<T>) {
    |r.slots| == RING && r.next < RING
  }

  /** Overwrite the slot at the cursor and move the cursor on. */
  function Put<T>(r: Ring<T>, x: T): (r': Ring<T>)
    requires Shape(r)
    ensures Shape(r')
  {
    Ring(r.slots[r.next := x], (r.next + 1) % RING)
  }

  /** An empty ring after a list of puts. */
  function RingOf<T>(empty: T, xs: seq<T>): (r: Ring<T>)
    ensures Shape(r)
  {
    if xs == [] then Ring(seq(RING, _ => empty), 0) else Put(RingOf(empty, DropLast(xs)), Last(xs))
  }

  /** The last of n ordinals that is congruent to slot j. */
  function Latest(n: nat, j: nat): (k: int)
    ensures j < RING && j < n ==> 0 <= k < n && k % RING == j && n <= k + RING
  {
    n - 1 - (n - 1 - j) % RING
  }

  lemma LatestStep(n: nat, j: nat)
    requires j < RING && j < n
    ensures Latest(n + 1, j) == if n % RING == j then n else Latest(n, j)
  {
    var a := n - 1 - j;
    var q, r := a / RING, a % RING;
    if r == RING - 1 {
      DivMod(a + 1, RING, q + 1, 0);
      DivMod(n, RING, q + 1, j);
    } else {
      DivMod(a + 1, RING, q, r + 1);
      DivMod(n, RING, if j + r + 1 < RING then q else q + 1, if j + r + 1 < RING then j + r + 1 else j + r + 1 - RING);
    }
  }

  ghost predicate Window<T>(empty: T, xs: seq<T>, r: Ring<T>, j: nat)
    requires Shape(r) && j < RING
  {
    r.slots[j] == if j < |xs| then xs[Latest(|xs|, j)] else empty
  }

  lemma WindowStep<T>(empty: T, xs: seq<T>, x: T, r: Ring<T>, j: nat)
    requires Shape(r) && j < RING && r.next == |xs| % RING && Window(empty, xs, r, j)
    ensures Window(empty, xs + [x], Put(r, x), j)
  {
    hide Latest;
    if j < |xs| {
      LatestStep(|xs|, j);
    } else {
      assert |xs| == |xs| % RING;
    }
  }

  /** The ring is a sliding window: the cursor is n mod 16, and slot j holds the latest entry
      whose ordinal is congruent to j, or is still empty. */
  lemma {:induction false} SlidingWindow<T>(empty: T, xs: seq<T>)
    ensures RingOf(empty, xs).next == |xs| % RING
    ensures forall j | 0 <= j < RING :: Window(empty, xs, RingOf(empty, xs), j)
  {
    hide Latest;
    if xs != [] {
      hide Window;
      var ys := DropLast(xs);
      SlidingWindow(empty, ys);
      assert xs == ys + [Last(xs)];
      forall j | 0 <= j < RING
        ensures Window(empty, xs, RingOf(empty, xs), j)
      {
        WindowStep(empty, ys, Last(xs), RingOf(empty, ys), j);
      }
    }
  }

  // ----- allocation records

  datatype AllocSlot = AllocSlot(valid: bool, handle: int, len: nat)

  const NO_ALLOC: AllocSlot := AllocSlot(false, 0, 0)

  predicate Holds(s: AllocSlot, handle: int) {
    s.valid && s.handle == handle
  }

  /** The scan runs over all slots without stopping, so the highest matching slot wins. */
  function Lookup(slots: seq<AllocSlot>, handle: int): (r: Option<nat>)
    ensures r.Some? <==> exists s <- slots :: Holds(s, handle)
    ensures r.Some? ==> exists j | 0 <= j < |slots| ::
              Holds(slots[j], handle) && r.value == slots[j].len
              && forall k | j < k < |slots| :: !Holds(slots[k], handle)
  {
    if slots == [] then None
    else if Holds(Last(slots), handle) then Some(Last(slots).len)
    else Lookup(DropLast(slots), handle)
  }

  // ----- mapped-descriptor records

  datatype MappedSlot = MappedSlot(valid: bool, fd: int, len: nat, consumed: bool)

  const NO_MAPPED: MappedSlot := MappedSlot(false, 0, 0, false)

  predicate Fits(s: MappedSlot, len: nat, exclude: int) {
    s.valid && !s.consumed && s.len == len && s.fd != exclude
  }

  /** The first slot that fits, or -1. */
  function FindFrom(slots: seq<MappedSlot>, i: nat, len: nat, exclude: int): (c: int)
    requires i <= |slots|
    ensures c == -1 || (i <= c < |slots| && Fits(slots[c], len, exclude))
    ensures forall k | i <= k < if c == -1 then |slots| else c :: !Fits(slots[k], len, exclude)
    decreases |slots| - i
  {
    if i == |slots| then -1
    else if Fits(slots[i], len, exclude) then i
    else FindFrom(slots, i + 1, len, exclude)
  }

  function Find(r: Ring<MappedSlot>, len: nat, exclude: int): int {
    FindFrom(r.slots, 0, len, exclude)
  }

  /** A recording just made is there for any other descriptor that is refused: a slot is found,
      and its own if no other fits. */
  lemma RecordingIsFound(r: Ring<MappedSlot>, fd: int, len: nat, refused: int)
    requires Shape(r) && fd != refused
    ensures var r' := Put(r, MappedSlot(true, fd, len, false));
            var c := Find(r', len, refused);
            && 0 <= c < 16 && r'.slots[c].len == len && r'.slots[c].fd != refused && !r'.slots[c].consumed
            && ((forall s <- r.slots :: s.consumed || s.len != len || s.fd == refused) ==> r'.slots[c].fd == fd)
  {
    var r' := Put(r, MappedSlot(true, fd, len, false));
    assert r'.slots[r.next] == MappedSlot(true, fd, len, false);
    assert forall j | 0 <= j < RING && j != r.next :: r'.slots[j] == r.slots[j] && r.slots[j] in r.slots;
  }

  function Consume(r: Ring<MappedSlot>, i: nat): (r': Ring<MappedSlot>)
    requires Shape(r) && i < RING
    ensures Shape(r')
  {
    r.(slots := r.slots[i := r.slots[i].(consumed := true)])
  }

  // ----- device descriptors

  function Tracked(fds: seq<int>, fd: int): seq<int> {
    if |fds| < MAX_DEVICE_FDS then fds + [fd] else fds
  }

  function TrackedAll(known: seq<int>): seq<int> {
    Fold(Tracked, [], known)
  }

  function FirstFour(known: seq<int>): seq<int> {
    if |known| <= 4 then known else known[..4]
  }

  /** The first four descriptors are kept for good; later ones are never noticed. */
  lemma {:induction false} FirstFourTracked(known: seq<int>)
    ensures TrackedAll(known) == FirstFour(known)
  {
    if known != [] {
      var most := DropLast(known);
      FirstFourTracked(most);
      if |known| <= MAX_DEVICE_FDS {
        assert known == most + [Last(known)];
      } else if |most| == MAX_DEVICE_FDS {
        assert most == known[..MAX_DEVICE_FDS];
      } else {
        assert most[..MAX_DEVICE_FDS] == known[..MAX_DEVICE_FDS];
      }
    }
  }

  // ----- the registries in place

  class AllocRegistry {
    const records: array<AllocSlot>
    var next: nat

    ghost predicate Valid()
      reads this, records
    {
      records.Length == RING && next < RING
    }

    ghost function View(): (r: Ring<AllocSlot>)
      reads this, records
      requires Valid()
      ensures Shape(r)
    {
      Ring(records[..], next)
    }

    constructor ()
      ensures Valid() && fresh(records) && View() == RingOf(NO_ALLOC, [])
    {
      records := new AllocSlot[RING](_ => NO_ALLOC);
      next := 0;
    }

    method Record(handle: int, len: nat)
      requires Valid()
      modifies this, records
      ensures Valid() && View() == Put(old(View()), AllocSlot(true, handle, len))
    {
      records[next] := AllocSlot(true, handle, len);
      next := (next + 1) % RING;
    }

    method LookupLen(handle: int) returns (found: bool, len: nat)
      requires Valid()
      ensures (if found then Some(len) else None) == Lookup(View().slots, handle)
    {
      found, len := false, 0;
      for i := 0 to RING
        invariant (if found then Some(len) else None) == Lookup(records[..i], handle)
      {
        assert DropLast(records[..i + 1]) == records[..i];
        if records[i].valid && records[i].handle == handle {
          len := records[i].len;
          found := true;
        }
      }
      assert records[..RING] == records[..];
    }
  }

  class MappedRegistry {
    const records: array<MappedSlot>
    var next: nat

    ghost predicate Valid()
      reads this, records
    {
      records.Length == RING && next < RING
    }

    ghost function View(): (r: Ring<MappedSlot>)
      reads this, records
      requires Valid()
      ensures Shape(r)
    {
      Ring(records[..], next)
    }

    constructor ()
      ensures Valid() && fresh(records) && View() == RingOf(NO_MAPPED, [])
    {
      records := new MappedSlot[RING](_ => NO_MAPPED);
      next := 0;
    }

    method Record(fd: int, len: nat)
      requires Valid()
      modifies this, records
      ensures Valid() && View() == Put(old(View()), MappedSlot(true, fd, len, false))
    {
      records[next] := MappedSlot(true, fd, len, false);
      next := (next + 1) % RING;
    }

    method FindCandidate(len: nat, exclude: int) returns (candidate: int)
      requires Valid()
      ensures candidate == Find(View(), len, exclude)
    {
      candidate := -1;
      for i := 0 to RING
        invariant candidate == -1 && Find(View(), len, exclude) == FindFrom(View().slots, i, len, exclude)
      {
        if records[i].valid && !records[i].consumed && records[i].len == len && records[i].fd != exclude {
          candidate := i;
          break;
        }
      }
    }

    method MarkConsumed(i: nat)
      requires Valid() && i < RING
      modifies records
      ensures Valid() && View() == Consume(old(View()), i)
    {
      records[i] := records[i].(consumed := true);
    }
  }

  class DeviceList {
    const fds: array<int>
    var count: nat

    ghost predicate Valid()
      reads this, fds
    {
      fds.Length == MAX_DEVICE_FDS && count <= MAX_DEVICE_FDS
    }

    ghost function View(): seq<int>
      reads this, fds
      requires Valid()
    {
      fds[..count]
    }

    constructor ()
      ensures Valid() && fresh(fds) && View() == []
    {
      fds := new int[MAX_DEVICE_FDS](_ => 0);
      count := 0;
    }

    method Track(fd: int)
      requires Valid()
      modifies this, fds
      ensures Valid()
      ensures View() == Tracked(old(View()), fd)
    {
      if count < MAX_DEVICE_FDS {
        fds[count] := fd;
        count := count + 1;
      }
    }

    method IsDevice(fd: int) returns (result: bool)
      requires Valid()
      ensures result <==> fd in View()
    {
      result := false;
      for i := 0 to count
        invariant !result && fd !in fds[..i]
      {
        if fds[i] == fd {
          result := true;
          break;
        }
      }
    }
  }
}
