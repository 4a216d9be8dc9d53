/** What a lookup in the allocation ring means in terms of everything ever recorded. */
module IonWindow {
  import opened Basics
  import opened IonRegistry

  predicate AllRecorded(xs: seq<AllocSlot>) {
    forall x <- xs :: x.valid
  }

  function AllocRing(xs: seq<AllocSlot>): Ring<AllocSlot> {
    RingOf(NO_ALLOC, xs)
  }

  lemma AllocRingSnoc(xs: seq<AllocSlot>, x: AllocSlot)
    ensures AllocRing(xs + [x]) == Put(AllocRing(xs), x)
  {
    assert DropLast(xs + [x]) == xs;
  }

  /** The window: the last sixteen recordings. Recordings from LapStart on lie below the
      cursor, the older ones at or above it. */
  function WindowStart(n: nat): nat {
    if n < RING then 0 else n - RING
  }

  function LapStart(n: nat): nat {
    n - n % RING
  }

  /** The newest recording of a handle among ordinals lo..hi. */
  function Newest(xs: seq<AllocSlot>, handle: int, lo: nat, hi: nat): (k: Option<nat>)
    requires hi <= |xs|
    ensures k.Some? ==> lo <= k.value < hi && xs[k.value].handle == handle
    ensures forall i | lo <= i < hi && xs[i].handle == handle :: k.Some? && i <= k.value
    decreases hi
  {
    if hi <= lo then None
    else if xs[hi - 1].handle == handle then Some(hi - 1)
    else Newest(xs, handle, lo, hi - 1)
  }

  function NewestInWindow(xs: seq<AllocSlot>, handle: int): (k: Option<nat>) {
    Newest(xs, handle, WindowStart(|xs|), |xs|)
  }

  function Above(xs: seq<AllocSlot>, handle: int): Option<nat> {
    if LapStart(|xs|) < WindowStart(|xs|) then None else Newest(xs, handle, WindowStart(|xs|), LapStart(|xs|))
  }

  function Below(xs: seq<AllocSlot>, handle: int): Option<nat> {
    Newest(xs, handle, LapStart(|xs|), |xs|)
  }

  /** Slots above the cursor come later in the scan, so their recordings win although they
      are the older ones. */
  function Winner(xs: seq<AllocSlot>, handle: int): Option<nat> {
    if Above(xs, handle).Some? then Above(xs, handle) else Below(xs, handle)
  }

  lemma {:induction false} LookupHighest(slots: seq<AllocSlot>, handle: int, j: nat)
    requires j < |slots| && Holds(slots[j], handle)
    requires forall k | j < k < |slots| :: !Holds(slots[k], handle)
    ensures Lookup(slots, handle) == Some(slots[j].len)
  {
    if j < |slots| - 1 {
      LookupHighest(DropLast(slots), handle, j);
    }
  }

  /** Recording k is in the window, and every other one there of its handle lies in a lower slot. */
  predicate Decides(xs: seq<AllocSlot>, k: nat) {
    && WindowStart(|xs|) <= k < |xs|
    && forall i | WindowStart(|xs|) <= i < |xs| && i != k && xs[i].handle == xs[k].handle :: i % RING < k % RING
  }

  /** The scan meets the older lap's recordings after the newer lap's, each in order. */
  lemma ScanPosition(n: nat, i: nat)
    requires WindowStart(n) <= i < n
    ensures i % RING == if i < LapStart(n) then i - (LapStart(n) - RING) else i - LapStart(n)
    ensures i < LapStart(n) ==> i % RING >= n % RING
    ensures i >= LapStart(n) ==> i % RING < n % RING
  {
    var q := n / RING;
    if i < LapStart(n) {
      DivMod(i, RING, q - 1, i - (LapStart(n) - RING));
    } else {
      DivMod(i, RING, q, i - LapStart(n));
    }
  }

  lemma WinnerDecides(xs: seq<AllocSlot>, k: nat)
    requires k < |xs|
    ensures Decides(xs, k) <==> Winner(xs, xs[k].handle) == Some(k)
  {
    var n, w := |xs|, Winner(xs, xs[k].handle);
    if WindowStart(n) <= k {
      ScanPosition(n, k);
      assert w.Some?;
      ScanPosition(n, w.value);
      forall i | WindowStart(n) <= i < n && xs[i].handle == xs[k].handle && i != w.value
        ensures i % RING < w.value % RING
      {
        ScanPosition(n, i);
      }
    }
  }

  lemma LatestOf(n: nat, k: nat)
    requires WindowStart(n) <= k < n
    ensures Latest(n, k % RING) == k
  {
    DivMod(n - 1 - k % RING, RING, k / RING, n - 1 - k);
  }

  lemma LookupIsWinner(xs: seq<AllocSlot>, handle: int)
    requires AllRecorded(xs)
    ensures Lookup(AllocRing(xs).slots, handle)
         == if Winner(xs, handle).Some? then Some(xs[Winner(xs, handle).value].len) else None
  {
    hide RingOf, Latest, Lookup;
    var n, ring, w := |xs|, AllocRing(xs), Winner(xs, handle);
    SlidingWindow(NO_ALLOC, xs);
    if w.Some? {
      WinnerDecides(xs, w.value);
      LatestOf(n, w.value);
      assert Window(NO_ALLOC, xs, ring, w.value % RING);
      forall j: nat | w.value % RING < j < RING
        ensures !Holds(ring.slots[j], handle)
      {
        assert Window(NO_ALLOC, xs, ring, j);
      }
      LookupHighest(ring.slots, handle, w.value % RING);
    } else {
      forall j: nat | j < RING
        ensures !Holds(ring.slots[j], handle)
      {
        assert Window(NO_ALLOC, xs, ring, j);
      }
    }
  }

  /** A lookup succeeds exactly for the handles of the last sixteen recordings; with one
      recording of the handle among them it returns that recording's length. */
  lemma LookupInWindow(xs: seq<AllocSlot>, handle: int)
    requires AllRecorded(xs)
    ensures Lookup(AllocRing(xs).slots, handle).Some? <==>
            exists k | WindowStart(|xs|) <= k < |xs| :: xs[k].handle == handle
    ensures forall k | WindowStart(|xs|) <= k < |xs| && xs[k].handle == handle
              && (forall i | WindowStart(|xs|) <= i < |xs| && i != k :: xs[i].handle != handle) ::
              Lookup(AllocRing(xs).slots, handle) == Some(xs[k].len)
  {
    LookupIsWinner(xs, handle);
  }

  /** With repeats, a lookup returns the newest recording's length exactly when the handle
      was not recorded on both sides of the cursor, or with the same length on both. */
  lemma LookupNewest(xs: seq<AllocSlot>, handle: int)
    requires AllRecorded(xs) && NewestInWindow(xs, handle).Some?
    ensures Lookup(AllocRing(xs).slots, handle) == Some(xs[NewestInWindow(xs, handle).value].len) <==>
            (Above(xs, handle).Some? && Below(xs, handle).Some?
             ==> xs[Above(xs, handle).value].len == xs[Below(xs, handle).value].len)
  {
    LookupIsWinner(xs, handle);
  }

  /** Handle 7 is recorded in the last slot, and again, after the kernel has reused it, in
      the first: the lookup still answers with the old length. */
  lemma StaleLength() returns (xs: seq<AllocSlot>)
    ensures AllRecorded(xs) && NewestInWindow(xs, 7) == Some(|xs| - 1)
    ensures Last(xs).len == 8192 && Lookup(AllocRing(xs).slots, 7) == Some(4096)
  {
    xs := seq(15, i => AllocSlot(true, 100, 1)) + [AllocSlot(true, 7, 4096), AllocSlot(true, 7, 8192)];
    assert Newest(xs, 7, 1, 16) == Some(15);
    LookupIsWinner(xs, 7);
  }
}
