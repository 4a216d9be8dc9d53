/** The search an ALLOC request goes through, as values: which candidates are tried, in
    which order, which system calls a try makes, and what is left when the search ends. */
module IonCascade {
  import opened Basics
  import opened IonKernel

  const NUM_HEAP_IDS: nat := 32
  const ALIGN_BLOCK: nat := 0x100000

  /** What varies between tries; the length and the device stay those of the request. */
  datatype Candidate = Candidate(align: nat, flags: nat, mask: nat)

  /** How a map-and-mmap probe of a handle ends. */
  datatype Probe = NoDescriptor | NoMapping(fd: int) | Mapped(fd: int, addr: int)

  /** How a try ends. A rejected handle is given back, which may itself fail. */
  datatype Outcome =
    | Refused
    | Rejected(handle: int, why: Probe, freed: bool)
    | Works(handle: int, fd: int, addr: int)

  predicate ProperOutcome(o: Outcome) {
    o.Rejected? ==> !o.why.Mapped?
  }

  // ----- the system calls of a try

  function ProbeArgs(len: nat): MmapArgs {
    MmapArgs(0, len, PROT_READ_WRITE, MAP_SHARED, 0)
  }

  function ProbeEvents(dev: int, len: nat, h: int, p: Probe): seq<Event> {
    match p
    case NoDescriptor => [Export(dev, MapRequest, h, None)]
    case NoMapping(fd) => [Export(dev, MapRequest, h, Some(fd)), Mmap(fd, ProbeArgs(len), None), Close(fd)]
    case Mapped(fd, a) =>
      [Export(dev, MapRequest, h, Some(fd)), Mmap(fd, ProbeArgs(len), Some(a)), Munmap(a, len), Close(fd)]
  }

  function AllocEvent(dev: int, len: nat, c: Candidate, handle: Option<int>): Event {
    Alloc(dev, len, c.align, c.flags, c.mask, handle)
  }

  function TryEvents(dev: int, len: nat, c: Candidate, o: Outcome): seq<Event> {
    match o
    case Refused => [AllocEvent(dev, len, c, None)]
    case Rejected(h, p, freed) =>
      [AllocEvent(dev, len, c, Some(h))] + ProbeEvents(dev, len, h, p) + [Free(dev, h, freed)]
    case Works(h, fd, a) => [AllocEvent(dev, len, c, Some(h))] + ProbeEvents(dev, len, h, Mapped(fd, a))
  }

  function SearchEvents(dev: int, len: nat, cs: seq<Candidate>, os: seq<Outcome>): seq<Event>
    requires |os| <= |cs|
  {
    if os == [] then []
    else SearchEvents(dev, len, cs, DropLast(os)) + TryEvents(dev, len, cs[|os| - 1], Last(os))
  }

  /** Only the candidates that were tried matter. */
  lemma {:induction false} SearchEventsPrefix(dev: int, len: nat, cs: seq<Candidate>, ds: seq<Candidate>,
                                              os: seq<Outcome>)
    requires |os| <= |cs| && cs <= ds
    ensures SearchEvents(dev, len, cs, os) == SearchEvents(dev, len, ds, os)
  {
    if os != [] {
      SearchEventsPrefix(dev, len, cs, ds, DropLast(os));
    }
  }

  lemma SearchEventsSnoc(dev: int, len: nat, cs: seq<Candidate>, os: seq<Outcome>, o: Outcome)
    requires |os| < |cs|
    ensures SearchEvents(dev, len, cs, os + [o]) == SearchEvents(dev, len, cs, os) + TryEvents(dev, len, cs[|os|], o)
  {
    assert DropLast(os + [o]) == os;
  }

  /** A second search after a finished one. */
  lemma {:induction false} SearchEventsAppend(dev: int, len: nat, cs: seq<Candidate>, os: seq<Outcome>,
                                              ds: seq<Candidate>, ps: seq<Outcome>)
    requires |os| == |cs| && |ps| <= |ds|
    ensures SearchEvents(dev, len, cs + ds, os + ps)
         == SearchEvents(dev, len, cs, os) + SearchEvents(dev, len, ds, ps)
  {
    if ps == [] {
      assert os + ps == os;
      SearchEventsPrefix(dev, len, cs, cs + ds, os);
    } else {
      var qs, p := DropLast(ps), Last(ps);
      assert os + ps == (os + qs) + [p] && ps == qs + [p];
      SearchEventsAppend(dev, len, cs, os, ds, qs);
      SearchEventsSnoc(dev, len, cs + ds, os + qs, p);
      SearchEventsSnoc(dev, len, ds, qs, p);
      Associative(SearchEvents(dev, len, cs, os), SearchEvents(dev, len, ds, qs), TryEvents(dev, len, ds[|qs|], p));
    }
  }

  // ----- what a search leaves behind

  /** The handles that a try leaves live: the one it returns, or one the kernel would not free. */
  function Kept(dev: int, o: Outcome): set<(int, int)> {
    match o
    case Refused => {}
    case Rejected(h, _, freed) => if freed then {} else {(dev, h)}
    case Works(h, _, _) => {(dev, h)}
  }

  function AllKept(dev: int, os: seq<Outcome>): set<(int, int)> {
    if os == [] then {} else AllKept(dev, DropLast(os)) + Kept(dev, Last(os))
  }

  /** A probe gives back its descriptor and its mapping whatever the kernel answers. */
  lemma ProbeLeavesNothing(r: Resources, dev: int, len: nat, h: int, p: Probe)
    requires PossibleRun(r, ProbeEvents(dev, len, h, p))
    ensures Replay(r, ProbeEvents(dev, len, h, p)) == r
    ensures (dev, h) in r.live ==> CarefulRun(r, ProbeEvents(dev, len, h, p))
  {
    var es := ProbeEvents(dev, len, h, p);
    assert es[..0] == [];
    Snoc(r, es[..0], es[0]);
    assert es[..1] == es[..0] + [es[0]];
    if p.NoDescriptor? {
      assert es == es[..1];
    } else {
      assert es[..2] == es[..1] + [es[1]] && es[..3] == es[..2] + [es[2]];
      Snoc(r, es[..1], es[1]);
      Snoc(r, es[..2], es[2]);
      if p.Mapped? {
        assert es == es[..3] + [es[3]];
        Snoc(r, es[..3], es[3]);
        assert es[..3] == DropLast(es);
      } else {
        assert es == es[..3];
      }
      assert es[..2] == DropLast(es[..3]) && es[..1] == DropLast(es[..2]);
      assert r.fds + {p.fd} - {p.fd} == r.fds;
      if p.Mapped? {
        assert r.maps + {p.addr} - {p.addr} == r.maps;
      }
    }
  }

  /** A try changes nothing but the handles of Kept, and those were not live before. */
  lemma TryLeaves(r: Resources, dev: int, len: nat, c: Candidate, o: Outcome)
    requires ProperOutcome(o)
    requires PossibleRun(r, TryEvents(dev, len, c, o))
    ensures Replay(r, TryEvents(dev, len, c, o)) == r.(live := r.live + Kept(dev, o))
    ensures Kept(dev, o) !! r.live
    ensures CarefulRun(r, TryEvents(dev, len, c, o))
  {
    var first := AllocEvent(dev, len, c, if o.Refused? then None else Some(o.handle));
    Snoc(r, [], first);
    assert [] + [first] == [first];
    if !o.Refused? {
      var probe := ProbeEvents(dev, len, o.handle, if o.Works? then Mapped(o.fd, o.addr) else o.why);
      var mid := Replay(r, [first]);
      Append(r, [first], probe);
      if o.Rejected? {
        assert TryEvents(dev, len, c, o) == [first] + probe + [Free(dev, o.handle, o.freed)];
        Snoc(r, [first] + probe, Free(dev, o.handle, o.freed));
      }
      ProbeLeavesNothing(mid, dev, len, o.handle, if o.Works? then Mapped(o.fd, o.addr) else o.why);
      assert r.live + {(dev, o.handle)} - {(dev, o.handle)} == r.live;
    }
    assert r.live + {} == r.live;
  }

  /** Conservation over a whole search, for every kernel behaviour: descriptors and mappings
      are as before, and the live handles grow by exactly those of AllKept. */
  lemma {:induction false} SearchLeaves(r: Resources, dev: int, len: nat, cs: seq<Candidate>, os: seq<Outcome>)
    requires |os| <= |cs| && forall o <- os :: ProperOutcome(o)
    requires PossibleRun(r, SearchEvents(dev, len, cs, os))
    ensures Replay(r, SearchEvents(dev, len, cs, os)) == r.(live := r.live + AllKept(dev, os))
    ensures AllKept(dev, os) !! r.live
    ensures CarefulRun(r, SearchEvents(dev, len, cs, os))
  {
    if os == [] {
      assert r.live + {} == r.live;
    } else {
      var before := SearchEvents(dev, len, cs, DropLast(os));
      var last := TryEvents(dev, len, cs[|os| - 1], Last(os));
      Append(r, before, last);
      SearchLeaves(r, dev, len, cs, DropLast(os));
      TryLeaves(Replay(r, before), dev, len, cs[|os| - 1], Last(os));
      assert r.live + AllKept(dev, DropLast(os)) + Kept(dev, Last(os)) == r.live + AllKept(dev, os);
    }
  }

  // ----- first match

  predicate Found(os: seq<Outcome>) {
    os != [] && Last(os).Works?
  }

  /** The search stopped at its first success, or tried everything. */
  predicate Searched(order: seq<Candidate>, os: seq<Outcome>) {
    && |os| <= |order|
    && (forall i | 0 <= i < |os| - 1 :: !os[i].Works?)
    && (forall o <- os :: ProperOutcome(o))
    && (!Found(os) ==> |os| == |order|)
  }

  predicate AllFreed(os: seq<Outcome>) {
    forall o <- os :: o.Rejected? ==> o.freed
  }

  /** When every FREE succeeds, a search keeps the one handle it returns, or none. */
  lemma {:induction false} KeptIsReturned(dev: int, order: seq<Candidate>, os: seq<Outcome>)
    requires Searched(order, os) && AllFreed(os)
    ensures AllKept(dev, os) == if Found(os) then {(dev, Last(os).handle)} else {}
  {
    if os != [] {
      var n := |os| - 1;
      assert forall o <- DropLast(os) :: o in os;
      NothingKept(dev, DropLast(os));
    }
  }

  lemma {:induction false} NothingKept(dev: int, os: seq<Outcome>)
    requires AllFreed(os) && forall o <- os :: !o.Works?
    ensures AllKept(dev, os) == {}
  {
    if os != [] {
      assert forall o <- DropLast(os) :: o in os;
      NothingKept(dev, DropLast(os));
      assert Last(os) in os;
    }
  }

  /** For a kernel whose answers follow a fixed verdict, the search succeeds exactly when
      some candidate works, and then it returns the first one that does. */
  lemma FirstMatch(order: seq<Candidate>, os: seq<Outcome>, verdict: Candidate -> bool)
    requires Searched(order, os)
    requires forall i | 0 <= i < |os| :: os[i].Works? <==> verdict(order[i])
    ensures Found(os) <==> exists c <- order :: verdict(c)
    ensures Found(os) ==> verdict(order[|os| - 1]) && forall i | 0 <= i < |os| - 1 :: !verdict(order[i])
  {
    if Found(os) {
      assert order[|os| - 1] in order;
    } else {
      forall c | c in order
        ensures !verdict(c)
      {
        var i :| 0 <= i < |order| && order[i] == c;
        assert i == |os| - 1 ==> os[i] == Last(os);
      }
    }
  }

  // ----- the grid

  /** Bit h of a 32-bit mask, that is (mask & (1u << h)) != 0. */
  predicate BitSet(mask: nat, h: nat) {
    mask / Pow2(h) % 2 == 1
  }

  function RoundAlign(align: nat): nat {
    if align >= ALIGN_BLOCK then align else ALIGN_BLOCK
  }

  /** flags & ~CACHED, the cached flag being bit 0. */
  function Uncached(flags: nat): nat {
    flags - flags % 2
  }

  function AlignVariants(align: nat): seq<nat> {
    if RoundAlign(align) == align then [align] else [align, RoundAlign(align)]
  }

  function FlagVariants(flags: nat): seq<nat> {
    if Uncached(flags) == flags then [flags] else [flags, Uncached(flags)]
  }

  function Row(mask: nat, align: nat, flags: seq<nat>): (r: seq<Candidate>)
    ensures |r| == |flags|
  {
    seq(|flags|, j requires 0 <= j < |flags| => Candidate(align, flags[j], mask))
  }

  function Block(mask: nat, aligns: seq<nat>, flags: seq<nat>): seq<Candidate> {
    if aligns == [] then [] else Block(mask, DropLast(aligns), flags) + Row(mask, Last(aligns), flags)
  }

  /** The grid over the first n heap ids, without those of the request's own mask. */
  function Grid(n: nat, skip: nat, align: nat, flags: nat): seq<Candidate>
    decreases n, skip
  {
    if n == 0 then [] else Grid(n - 1, skip, align, flags) + HeapBlock(n - 1, skip, align, flags)
  }

  /** The candidates of one heap id. */
  function HeapBlock(h: nat, skip: nat, align: nat, flags: nat): seq<Candidate> {
    if BitSet(skip, h) then [] else Block(Pow2(h), AlignVariants(align), FlagVariants(flags))
  }

  function GridOrder(skip: nat, align: nat, flags: nat): seq<Candidate> {
    Grid(NUM_HEAP_IDS, skip, align, flags)
  }

  lemma {:induction false} GridPrefix(m: nat, n: nat, skip: nat, align: nat, flags: nat)
    requires m <= n
    ensures Grid(m, skip, align, flags) <= Grid(n, skip, align, flags)
    decreases n
  {
    if m < n {
      GridPrefix(m, n - 1, skip, align, flags);
    }
  }

  /** The order the grid is tried in: heap id, then original before rounded alignment, then
      original before uncached flags. */
  predicate Precedes(c: Candidate, d: Candidate, align: nat, flags: nat) {
    || c.mask < d.mask
    || (c.mask == d.mask && c.align == align && d.align != align)
    || (c.mask == d.mask && c.align == d.align && c.flags == flags && d.flags != flags)
  }

  /** What the grid may contain: one heap outside the skipped ones, and one of the variants. */
  predicate InGrid(c: Candidate, n: nat, skip: nat, align: nat, flags: nat) {
    && (exists h | 0 <= h < n :: !BitSet(skip, h) && c.mask == Pow2(h))
    && c.align in [align, RoundAlign(align)]
    && c.flags in [flags, Uncached(flags)]
  }

  predicate InBlock(c: Candidate, mask: nat, align: nat, flags: nat) {
    c.mask == mask && c.align in [align, RoundAlign(align)] && c.flags in [flags, Uncached(flags)]
  }

  lemma RowShape(mask: nat, align: nat, flags: nat, c: Candidate)
    ensures c in Row(mask, align, FlagVariants(flags)) <==>
            c.mask == mask && c.align == align && c.flags in [flags, Uncached(flags)]
  {
    var fs := FlagVariants(flags);
    if c.mask == mask && c.align == align && c.flags in [flags, Uncached(flags)] {
      var j := if c.flags == flags then 0 else 1;
      assert Row(mask, align, fs)[j] == c;
    }
  }

  lemma BlockRows(mask: nat, align: nat, fs: seq<nat>)
    ensures Block(mask, AlignVariants(align), fs)
         == if RoundAlign(align) == align then Row(mask, align, fs)
            else Row(mask, align, fs) + Row(mask, RoundAlign(align), fs)
  {
    var aligns := AlignVariants(align);
    assert DropLast(aligns) == if |aligns| == 1 then [] else [align];
    assert DropLast([align]) == [];
    assert Block(mask, [align], fs) == Row(mask, align, fs);
  }

  /** At most two alignments by two flag words. */
  lemma BlockShape(mask: nat, align: nat, flags: nat)
    ensures var b := Block(mask, AlignVariants(align), FlagVariants(flags));
            && |b| <= 4
            && (forall p, q | 0 <= p < q < |b| :: Precedes(b[p], b[q], align, flags))
            && (forall c :: c in b <==> InBlock(c, mask, align, flags))
  {
    hide Block;
    var fs := FlagVariants(flags);
    var b := Block(mask, AlignVariants(align), fs);
    BlockRows(mask, align, fs);
    var r0, r1 := Row(mask, align, fs), Row(mask, RoundAlign(align), fs);
    forall c
      ensures c in b <==> InBlock(c, mask, align, flags)
    {
      RowShape(mask, align, flags, c);
      RowShape(mask, RoundAlign(align), flags, c);
    }
  }

  /** The grid holds exactly what InGrid says. */
  lemma {:induction false} GridMembers(n: nat, skip: nat, align: nat, flags: nat, c: Candidate)
    ensures c in Grid(n, skip, align, flags) <==> InGrid(c, n, skip, align, flags)
  {
    hide Block, Pow2, BitSet;
    if n > 0 {
      GridMembers(n - 1, skip, align, flags, c);
      BlockShape(Pow2(n - 1), align, flags);
      assert c in Grid(n, skip, align, flags) <==>
             c in Grid(n - 1, skip, align, flags) || c in HeapBlock(n - 1, skip, align, flags);
    }
  }

  /** The grid is tried strictly in order, so nothing is tried twice, and has at most four
      candidates a heap. */
  lemma {:induction false} GridSorted(n: nat, skip: nat, align: nat, flags: nat)
    ensures |Grid(n, skip, align, flags)| <= 4 * n
    ensures forall p, q | 0 <= p < q < |Grid(n, skip, align, flags)| ::
              Precedes(Grid(n, skip, align, flags)[p], Grid(n, skip, align, flags)[q], align, flags)
  {
    if n > 0 {
      GridSorted(n - 1, skip, align, flags);
      var before, b := Grid(n - 1, skip, align, flags), HeapBlock(n - 1, skip, align, flags);
      BlockShape(Pow2(n - 1), align, flags);
      forall p | 0 <= p < |before|
        ensures before[p].mask < Pow2(n - 1)
      {
        GridMembers(n - 1, skip, align, flags, before[p]);
        var h :| 0 <= h < n - 1 && before[p].mask == Pow2(h);
        Pow2Increases(h, n - 1);
      }
      forall q | 0 <= q < |b|
        ensures b[q].mask == Pow2(n - 1)
      {
        assert b[q] in b;
      }
    }
  }

  /** The grid search against a kernel with a fixed verdict: it fails exactly when no grid
      candidate works, and otherwise returns the working one that precedes all others. */
  lemma GridFirstMatch(skip: nat, align: nat, flags: nat, os: seq<Outcome>, verdict: Candidate -> bool)
    requires Searched(GridOrder(skip, align, flags), os)
    requires forall i | 0 <= i < |os| :: os[i].Works? <==> verdict(GridOrder(skip, align, flags)[i])
    ensures |os| <= 4 * NUM_HEAP_IDS
    ensures Found(os) <==> exists c :: InGrid(c, NUM_HEAP_IDS, skip, align, flags) && verdict(c)
    ensures Found(os) ==>
              var best := GridOrder(skip, align, flags)[|os| - 1];
              && InGrid(best, NUM_HEAP_IDS, skip, align, flags) && verdict(best)
              && forall c :: InGrid(c, NUM_HEAP_IDS, skip, align, flags) && verdict(c) && c != best
                             ==> Precedes(best, c, align, flags)
  {
    var order := GridOrder(skip, align, flags);
    FirstMatch(order, os, verdict);
    GridSorted(NUM_HEAP_IDS, skip, align, flags);
    forall c
      ensures c in order <==> InGrid(c, NUM_HEAP_IDS, skip, align, flags)
    {
      GridMembers(NUM_HEAP_IDS, skip, align, flags, c);
    }
    if Found(os) {
      var best := order[|os| - 1];
      assert best in order;
      forall c | c in order && verdict(c) && c != best
        ensures Precedes(best, c, align, flags)
      {
        var i :| 0 <= i < |order| && order[i] == c;
      }
    }
  }

  /** The grid offers nothing exactly when the request already named all 32 heaps. */
  lemma GridEmpty(skip: nat, align: nat, flags: nat)
    ensures GridOrder(skip, align, flags) == [] <==> forall h | 0 <= h < NUM_HEAP_IDS :: BitSet(skip, h)
  {
    var order := GridOrder(skip, align, flags);
    if h :| 0 <= h < NUM_HEAP_IDS && !BitSet(skip, h) {
      var c := Candidate(align, flags, Pow2(h));
      GridMembers(NUM_HEAP_IDS, skip, align, flags, c);
      assert c in order;
    } else if order != [] {
      GridMembers(NUM_HEAP_IDS, skip, align, flags, order[0]);
    }
  }

  // ----- the whole cascade

  function ForcedTry(align: nat, flags: nat, mask: nat, forced: nat): seq<Candidate> {
    if forced != 0 && forced != mask then [Candidate(align, flags, forced)] else []
  }

  /** An ALLOC request as it stands, then under the forced mask, then the grid. */
  function CascadeOrder(align: nat, flags: nat, mask: nat, forced: nat): seq<Candidate> {
    [Candidate(align, flags, mask)] + ForcedTry(align, flags, mask, forced) + GridOrder(mask, align, flags)
  }

  lemma NotInGrid(align: nat, flags: nat, mask: nat)
    ensures Candidate(align, flags, mask) !in GridOrder(mask, align, flags)
  {
    var c := Candidate(align, flags, mask);
    GridMembers(NUM_HEAP_IDS, mask, align, flags, c);
    forall h: nat
      ensures BitSet(Pow2(h), h)
    {
      assert Pow2(h) / Pow2(h) == 1;
    }
  }

  /** The grid alone never repeats a try; the cascade repeats one exactly when the forced mask
      is a single heap that the grid reaches again. */
  lemma CascadeRepeats(align: nat, flags: nat, mask: nat, forced: nat)
    ensures Distinct(GridOrder(mask, align, flags))
    ensures !Distinct(CascadeOrder(align, flags, mask, forced)) <==>
            forced != mask && exists h | 0 <= h < NUM_HEAP_IDS :: forced == Pow2(h) && !BitSet(mask, h)
  {
    hide Grid, Block;
    var grid := GridOrder(mask, align, flags);
    var order := CascadeOrder(align, flags, mask, forced);
    var head := ForcedTry(align, flags, mask, forced);
    GridSorted(NUM_HEAP_IDS, mask, align, flags);
    NotInGrid(align, flags, mask);
    GridMembers(NUM_HEAP_IDS, mask, align, flags, Candidate(align, flags, forced));
    assert head != [] ==> order[1] == Candidate(align, flags, forced);
    var k := 1 + |head|;
    assert forall q | k <= q < |order| :: order[q] == grid[q - k] && order[q] in grid;
    if head != [] && order[1] in grid {
      var q :| 0 <= q < |grid| && grid[q] == order[1];
      assert order[q + k] == order[1];
    }
  }

  /** A whole ALLOC, for every kernel that frees what it is asked to free: a search that
      finds adds exactly the one handle it returns, which was not live before; a search
      that does not adds none; descriptors and mappings are as before. */
  lemma AllocConserves(r: Resources, dev: int, len: nat, order: seq<Candidate>, os: seq<Outcome>)
    requires Searched(order, os) && AllFreed(os)
    requires PossibleRun(r, SearchEvents(dev, len, order, os))
    ensures var after := Replay(r, SearchEvents(dev, len, order, os));
            && after.fds == r.fds && after.maps == r.maps
            && (Found(os) ==> (dev, Last(os).handle) !in r.live && after.live == r.live + {(dev, Last(os).handle)})
            && (!Found(os) ==> after.live == r.live)
  {
    SearchLeaves(r, dev, len, order, os);
    KeptIsReturned(dev, order, os);
  }
}
