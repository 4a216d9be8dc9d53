/** What an ALLOC asks the kernel for, in terms of the heaps that its request names. */
module IonAlloc {
  import opened Basics
  import opened IonKernel
  import opened IonCascade

  // ----- masks as lists of heaps

  /** The mask of the heaps listed. */
  function MaskOf(heaps: seq<nat>): nat {
    if heaps == [] then 0 else MaskOf(DropLast(heaps)) + Pow2(Last(heaps))
  }

  /** A bit above the lowest is a bit of the number shifted by one. */
  lemma BitAbove(m: nat, h: nat)
    requires h > 0
    ensures BitSet(m, h) <==> BitSet(m / 2, h - 1)
  {
    var p := Pow2(h - 1);
    var a, r := m / 2 / p, m / 2 % p;
    assert m / 2 == a * p + r;
    assert a * (2 * p) == 2 * (a * p);
    DivMod(m, 2 * p, a, 2 * r + m % 2);
  }

  lemma {:induction false} AddBit(m: nat, x: nat, h: nat)
    requires !BitSet(m, x)
    ensures BitSet(m + Pow2(x), h) <==> h == x || BitSet(m, h)
    decreases x
  {
    hide BitSet, Pow2;
    LowestBit(m);
    AddPow2(m, x);
    if h == 0 {
      LowestBit(m + Pow2(x));
    } else {
      BitAbove(m, h);
      BitAbove(m + Pow2(x), h);
      if x > 0 {
        BitAbove(m, x);
        AddBit(m / 2, x - 1, h - 1);
      }
    }
  }

  lemma AddPow2(m: nat, x: nat)
    ensures if x == 0 then Pow2(x) == 1 else m / 2 + Pow2(x - 1) == (m + Pow2(x)) / 2 && (m + Pow2(x)) % 2 == m % 2
  {
    if x > 0 {
      var p := Pow2(x - 1);
      assert Pow2(x) == 2 * p;
    }
  }

  lemma LowestBit(m: nat)
    ensures BitSet(m, 0) <==> m % 2 == 1
  {
    assert Pow2(0) == 1;
  }

  lemma {:induction false} NoBit(h: nat)
    ensures !BitSet(0, h)
  {
    DivMod(0, Pow2(h), 0, 0);
  }

  /** A mask has exactly the bits of the heaps it was made from. */
  lemma {:induction false} BitsOfMask(heaps: seq<nat>, h: nat)
    requires Distinct(heaps)
    ensures BitSet(MaskOf(heaps), h) <==> h in heaps
  {
    hide BitSet, Pow2;
    if heaps == [] {
      NoBit(h);
    } else {
      BitsOfMask(DropLast(heaps), Last(heaps));
      BitsOfMask(DropLast(heaps), h);
      AddBit(MaskOf(DropLast(heaps)), Last(heaps), h);
      assert heaps == DropLast(heaps) + [Last(heaps)];
    }
  }

  /** The heaps below n that a mask names. */
  function HeapsOf(mask: nat, n: nat): seq<nat> {
    if n == 0 then []
    else if mask >= Pow2(n - 1) then HeapsOf(mask - Pow2(n - 1), n - 1) + [n - 1]
    else HeapsOf(mask, n - 1)
  }

  lemma HigherHeap(heaps: seq<nat>, h: nat)
    requires Distinct(heaps) && forall x <- heaps :: x < h
    ensures Distinct(heaps + [h]) && MaskOf(heaps + [h]) == MaskOf(heaps) + Pow2(h)
    ensures forall x <- heaps + [h] :: x < h + 1
  {
    hide Pow2;
    assert DropLast(heaps + [h]) == heaps;
    assert forall i | 0 <= i < |heaps| :: heaps[i] in heaps;
  }

  /** Every n-bit mask is the mask of a list of distinct heaps, so the laws below speak of
      every request. */
  lemma {:induction false} EveryMaskNamesHeaps(mask: nat, n: nat)
    requires mask < Pow2(n)
    ensures var heaps := HeapsOf(mask, n);
            Distinct(heaps) && (forall h <- heaps :: h < n) && MaskOf(heaps) == mask
    decreases n
  {
    if n > 0 {
      assert Pow2(n) == 2 * Pow2(n - 1);
      hide Pow2, Distinct, MaskOf;
      if mask >= Pow2(n - 1) {
        EveryMaskNamesHeaps(mask - Pow2(n - 1), n - 1);
        HigherHeap(HeapsOf(mask - Pow2(n - 1), n - 1), n - 1);
      } else {
        EveryMaskNamesHeaps(mask, n - 1);
      }
    }
  }

  // ----- what a request that names these heaps is offered

  /** One heap out of 32 that the request does not name; its alignment, or 1 MiB if that is
      more; its flags, with or without the lowest. */
  predicate Offered(c: Candidate, heaps: seq<nat>, align: nat, flags: nat) {
    && (exists h | 0 <= h < 32 :: h !in heaps && c.mask == MaskOf([h]))
    && (c.align == align || (align < 0x100000 && c.align == 0x100000))
    && (c.flags == flags || (flags % 2 == 1 && c.flags == flags - 1))
  }

  lemma OneHeap(h: nat)
    ensures MaskOf([h]) == Pow2(h)
  {
    assert DropLast([h]) == [];
  }

  lemma GridOffers(heaps: seq<nat>, align: nat, flags: nat, c: Candidate)
    requires Distinct(heaps)
    ensures c in GridOrder(MaskOf(heaps), align, flags) <==> Offered(c, heaps, align, flags)
  {
    hide Grid, BitSet, Pow2, MaskOf;
    var skip := MaskOf(heaps);
    GridMembers(NUM_HEAP_IDS, skip, align, flags, c);
    forall h: nat
      ensures (BitSet(skip, h) <==> h in heaps) && MaskOf([h]) == Pow2(h)
    {
      BitsOfMask(heaps, h);
      OneHeap(h);
    }
  }

  /** The grid search for a request that names these heaps, against a kernel with a fixed
      verdict: it succeeds iff something it may offer works, with what comes before all else. */
  lemma GridChooses(heaps: seq<nat>, align: nat, flags: nat, os: seq<Outcome>, verdict: Candidate -> bool)
    requires var order := GridOrder(MaskOf(heaps), align, flags);
             Distinct(heaps) && Searched(order, os) && Follows(os, order, verdict)
    ensures Found(os) <==> exists c :: Offered(c, heaps, align, flags) && verdict(c)
    ensures Found(os) ==>
              var best := GridOrder(MaskOf(heaps), align, flags)[|os| - 1];
              && Offered(best, heaps, align, flags) && verdict(best)
              && forall c :: Offered(c, heaps, align, flags) && verdict(c) && c != best
                             ==> Precedes(best, c, align, flags)
  {
    hide GridOrder, Offered, InGrid;
    var skip := MaskOf(heaps);
    GridFirstMatch(skip, align, flags, os, verdict);
    forall c
      ensures Offered(c, heaps, align, flags) <==> InGrid(c, NUM_HEAP_IDS, skip, align, flags)
    {
      GridOffers(heaps, align, flags, c);
      GridHolds(skip, align, flags, c);
    }
  }

  lemma GridHolds(skip: nat, align: nat, flags: nat, c: Candidate)
    ensures c in GridOrder(skip, align, flags) <==> InGrid(c, NUM_HEAP_IDS, skip, align, flags)
  {
    GridMembers(NUM_HEAP_IDS, skip, align, flags, c);
  }

  /** The grid is empty iff the request names all 32 heaps; the cascade tries a candidate twice
      iff the forced mask is that of one heap that the request does not name. */
  lemma EmptyAndRepeated(heaps: seq<nat>, align: nat, flags: nat, forced: nat)
    requires Distinct(heaps)
    ensures GridOrder(MaskOf(heaps), align, flags) == [] <==> forall h | 0 <= h < 32 :: h in heaps
    ensures !Distinct(CascadeOrder(align, flags, MaskOf(heaps), forced)) <==>
            forced != MaskOf(heaps) && exists h | 0 <= h < 32 :: h !in heaps && forced == MaskOf([h])
  {
    hide Distinct, GridOrder, CascadeOrder, MaskOf, BitSet, Pow2;
    forall h: nat
      ensures (BitSet(MaskOf(heaps), h) <==> h in heaps) && MaskOf([h]) == Pow2(h)
    {
      BitsOfMask(heaps, h);
      OneHeap(h);
    }
    GridEmpty(MaskOf(heaps), align, flags);
    CascadeRepeats(align, flags, MaskOf(heaps), forced);
  }

  predicate Follows(os: seq<Outcome>, order: seq<Candidate>, verdict: Candidate -> bool) {
    |os| <= |order| && forall i | 0 <= i < |os| :: os[i].Works? <==> verdict(order[i])
  }

  /** A search over two lists stops in the first one, or goes on as a search of the second. */
  lemma SearchSplits(head: seq<Candidate>, rest: seq<Candidate>, os: seq<Outcome>, verdict: Candidate -> bool)
    requires Searched(head + rest, os) && Follows(os, head + rest, verdict)
    ensures if exists i | 0 <= i < |head| :: verdict(head[i]) then
              0 < |os| <= |head| && Found(os) && verdict(head[|os| - 1])
              && forall i | 0 <= i < |os| - 1 :: !verdict(head[i])
            else
              |os| >= |head| && Searched(rest, os[|head|..]) && Follows(os[|head|..], rest, verdict)
              && (Found(os) <==> Found(os[|head|..]))
  {
    var order := head + rest;
    assert forall i | 0 <= i < |head| :: order[i] == head[i];
    FirstMatch(order, os, verdict);
    if i :| 0 <= i < |head| && verdict(head[i]) {
      assert order[i] in order;
      assert |os| - 1 <= i;
    } else {
      assert Found(os) ==> verdict(order[|os| - 1]) && |os| > |head|;
      var gs := os[|head|..];
      assert forall i | 0 <= i < |gs| :: gs[i] == os[|head| + i] && order[|head| + i] == rest[i];
      assert forall o <- gs :: o in os;
    }
  }

  /** The whole ALLOC, against a kernel with a fixed verdict: the request as it stands if that
      works, else under the forced mask if there is one, else the best that the grid offers;
      and it fails iff none of them works. */
  lemma AllocChooses(heaps: seq<nat>, align: nat, flags: nat, forced: nat, os: seq<Outcome>,
                     verdict: Candidate -> bool)
    requires var order := CascadeOrder(align, flags, MaskOf(heaps), forced);
             Distinct(heaps) && Searched(order, os) && Follows(os, order, verdict)
    ensures var asked, second := Candidate(align, flags, MaskOf(heaps)), Candidate(align, flags, forced);
            && (Found(os) <==>
                verdict(asked) || (forced != 0 && verdict(second))
                || exists c :: Offered(c, heaps, align, flags) && verdict(c))
            && (Found(os) ==>
                  var chosen := CascadeOrder(align, flags, MaskOf(heaps), forced)[|os| - 1];
                  if verdict(asked) then |os| == 1 && chosen == asked
                  else if forced != 0 && verdict(second) then |os| == 2 && chosen == second
                  else
                    && Offered(chosen, heaps, align, flags) && verdict(chosen)
                    && forall c :: Offered(c, heaps, align, flags) && verdict(c) && c != chosen
                                   ==> Precedes(chosen, c, align, flags))
  {
    hide GridOrder, Offered, MaskOf, Precedes, Searched, Found;
    var mask := MaskOf(heaps);
    var head, grid := [Candidate(align, flags, mask)] + ForcedTry(align, flags, mask, forced),
                      GridOrder(mask, align, flags);
    SearchSplits(head, grid, os, verdict);
    if !exists i | 0 <= i < |head| :: verdict(head[i]) {
      assert !verdict(head[0]) && (|head| == 2 ==> !verdict(head[1]));
      var gs := os[|head|..];
      GridChooses(heaps, align, flags, gs, verdict);
      NothingFound(gs);
      assert gs != [] ==> (head + grid)[|os| - 1] == grid[|gs| - 1];
    } else {
      assert verdict(head[0]) || verdict(head[1]);
    }
  }

  lemma NothingFound(os: seq<Outcome>)
    ensures Found(os) ==> os != []
  {
  }

  // ----- what the calls of a search are

  /** The ALLOC calls of a trace. */
  function Asked(es: seq<Event>): seq<Event> {
    if es == [] then [] else Asked(DropLast(es)) + if Last(es).Alloc? then [Last(es)] else []
  }

  lemma {:induction false} AskedAppend(a: seq<Event>, b: seq<Event>)
    ensures Asked(a + b) == Asked(a) + Asked(b)
  {
    if b == [] {
      assert a + b == a;
    } else {
      AskedAppend(a, DropLast(b));
      assert DropLast(a + b) == a + DropLast(b);
    }
  }

  lemma {:induction false} NothingAsked(es: seq<Event>)
    requires forall e <- es :: !e.Alloc?
    ensures Asked(es) == []
  {
    if es != [] {
      NothingAsked(DropLast(es));
      assert Last(es) in es;
    }
  }

  /** A whole-length shared mapping for reading and writing, at no given address. */
  predicate WholeMapping(args: MmapArgs, len: nat) {
    args.addr == 0 && args.len == len && args.prot == 3 && args.flags == 1 && args.offset == 0
  }

  /** The ALLOC call that a try makes, with its answer. */
  function Request(dev: int, len: nat, c: Candidate, o: Outcome): Event {
    Alloc(dev, len, c.align, c.flags, c.mask, if o.Refused? then None else Some(o.handle))
  }

  lemma TryAsks(dev: int, len: nat, c: Candidate, o: Outcome)
    ensures Asked(TryEvents(dev, len, c, o)) == [Request(dev, len, c, o)]
    ensures forall e <- TryEvents(dev, len, c, o) :: e.Mmap? ==> WholeMapping(e.args, len)
  {
    var es := TryEvents(dev, len, c, o);
    assert es == es[..1] + es[1..];
    AskedAppend(es[..1], es[1..]);
    NothingAsked(es[1..]);
    assert DropLast(es[..1]) == [];
  }

  /** A search asks for its candidates in their order, one ALLOC each, with the request's
      length; and whatever it maps it maps whole. */
  lemma {:induction false} SearchAsks(dev: int, len: nat, cs: seq<Candidate>, os: seq<Outcome>)
    requires |os| <= |cs|
    ensures Asked(SearchEvents(dev, len, cs, os))
         == seq(|os|, i requires 0 <= i < |os| => Request(dev, len, cs[i], os[i]))
    ensures forall e <- SearchEvents(dev, len, cs, os) :: e.Mmap? ==> WholeMapping(e.args, len)
  {
    hide TryEvents;
    if os != [] {
      SearchAsks(dev, len, cs, DropLast(os));
      TryAsks(dev, len, cs[|os| - 1], Last(os));
      AskedAppend(SearchEvents(dev, len, cs, DropLast(os)), TryEvents(dev, len, cs[|os| - 1], Last(os)));
    }
  }

  /** The handle that a search returns was allocated for the last candidate tried, exported,
      mapped whole, unmapped and closed again, in that order, and the search ends there. */
  lemma FoundWasMapped(dev: int, len: nat, cs: seq<Candidate>, os: seq<Outcome>)
    requires Searched(cs, os) && Found(os)
    ensures var c, o := cs[|os| - 1], Last(os);
            SearchEvents(dev, len, cs, os) == SearchEvents(dev, len, cs, DropLast(os)) +
              [Alloc(dev, len, c.align, c.flags, c.mask, Some(o.handle)), Export(dev, MapRequest, o.handle, Some(o.fd)),
               Mmap(o.fd, MmapArgs(0, len, 3, 1, 0), Some(o.addr)), Munmap(o.addr, len), Close(o.fd)]
  {
    var c, o := cs[|os| - 1], Last(os);
    hide SearchEvents, Searched;
    assert os == DropLast(os) + [o];
    SearchEventsSnoc(dev, len, cs, DropLast(os), o);
    assert TryEvents(dev, len, c, o) ==
      [Alloc(dev, len, c.align, c.flags, c.mask, Some(o.handle)), Export(dev, MapRequest, o.handle, Some(o.fd)),
       Mmap(o.fd, MmapArgs(0, len, 3, 1, 0), Some(o.addr)), Munmap(o.addr, len), Close(o.fd)];
  }
}
