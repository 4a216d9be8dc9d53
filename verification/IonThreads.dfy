/** Any number of threads inside the shim. Each lock section is one atomic step, taken from
    the registry functions; each system call is a step of its own. */
module IonThreads {
  import opened Basics
  import opened IonRegistry
  import opened IonWindow

  type Thread = nat
  type Slot = j: nat | j < RING
  type AllocRegister = r: Ring<AllocSlot> | Shape(r) witness RingOf(NO_ALLOC, [])
  type MappedRegister = r: Ring<MappedSlot> | Shape(r) witness RingOf(NO_MAPPED, [])

  /** One substitution, from the choice of a slot to its marking: a number of its own, the
      descriptor that was refused and the length asked for, the slot, and how many
      recordings had been made when it was chosen. */
  datatype Claim = Claim(id: nat, wanted: int, size: nat, slot: Slot, foundAt: nat)

  /** Where a thread is between two steps. */
  datatype Local =
    | Idle
    | Exported(dev: int, handle: int, fd: int)
    | Measured(dev: int, handle: int, fd: int, len: nat)
    | Missing(wanted: int, size: nat)
    | Chosen(claim: Claim)
    | Read(claim: Claim, readAt: nat, given: int)
    | Replaced(claim: Claim)

  datatype Action =
    | Allocate(dev: int, handle: int, len: nat)  // a validated handle is recorded
    | Export(dev: int, handle: int, fd: int)     // MAP or SHARE answered with a descriptor
    | Measure                                    // its length is looked up
    | RecordFd                                   // and recorded
    | FailMmap(wanted: int, size: nat)           // a client mmap is answered ENODEV
    | Choose                                     // a fitting slot is looked for
    | ReadSlot                                   // and its descriptor read
    | Retry(works: bool)                         // the second mmap
    | Mark                                       // the slot is consumed

  /** One validated allocation, and one recording of a mapped descriptor. A handle belongs
      to a device; the ring keeps only its number. */
  datatype Allocation = Allocation(dev: int, handle: int, len: nat)
  datatype Mapping = Mapping(dev: int, handle: int, fd: int, len: nat)

  /** One second mmap: its claim, the recordings made before the slot was read, and the
      descriptor read. */
  datatype Use = Use(claim: Claim, readAt: nat, given: int)

  datatype State = State(
    allocs: AllocRegister,
    mapped: MappedRegister,
    locals: map<Thread, Local>,
    // what has happened so far
    allocLog: seq<Allocation>,
    mappedLog: seq<Mapping>,
    exports: set<(int, int, int)>,
    claims: nat,
    uses: seq<Use>,
    served: seq<Use>,  // the uses that worked
    marked: set<int>)  // the recordings that were in a slot when it was consumed

  const INIT: State := State(RingOf(NO_ALLOC, []), RingOf(NO_MAPPED, []), map[], [], [], {}, 0, [], [], {})

  function At(s: State, t: Thread): Local {
    if t in s.locals then s.locals[t] else Idle
  }

  function Go(s: State, t: Thread, l: Local): State {
    s.(locals := s.locals[t := l])
  }

  predicate Enabled(s: State, t: Thread, a: Action) {
    match a
    case Allocate(_, _, _) => At(s, t).Idle?
    case Export(_, _, _) => At(s, t).Idle?
    case Measure => At(s, t).Exported?
    case RecordFd => At(s, t).Measured?
    case FailMmap(_, _) => At(s, t).Idle?
    case Choose => At(s, t).Missing?
    case ReadSlot => At(s, t).Chosen?
    case Retry(_) => At(s, t).Read?
    case Mark => At(s, t).Replaced?
  }

  function Step(s: State, t: Thread, a: Action): State
    requires Enabled(s, t, a)
  {
    var l := At(s, t);
    match a
    case Allocate(dev, h, len) =>
      Go(s, t, Idle).(allocs := Put(s.allocs, AllocSlot(true, h, len)),
                      allocLog := s.allocLog + [Allocation(dev, h, len)])
    case Export(dev, h, fd) => Go(s, t, Exported(dev, h, fd)).(exports := s.exports + {(dev, h, fd)})
    case Measure =>
      var len := Lookup(s.allocs.slots, l.handle);
      Go(s, t, if len.Some? then Measured(l.dev, l.handle, l.fd, len.value) else Idle)
    case RecordFd =>
      Go(s, t, Idle).(mapped := Put(s.mapped, MappedSlot(true, l.fd, l.len, false)),
                      mappedLog := s.mappedLog + [Mapping(l.dev, l.handle, l.fd, l.len)])
    case FailMmap(wanted, size) => Go(s, t, Missing(wanted, size))
    case Choose =>
      var c := Find(s.mapped, l.size, l.wanted);
      if c < 0 then Go(s, t, Idle)
      else Go(s, t, Chosen(Claim(s.claims, l.wanted, l.size, c, |s.mappedLog|))).(claims := s.claims + 1)
    case ReadSlot => Go(s, t, Read(l.claim, |s.mappedLog|, s.mapped.slots[l.claim.slot].fd))
    case Retry(works) =>
      var u := Use(l.claim, l.readAt, l.given);
      var s' := s.(uses := s.uses + [u]);
      if works then Go(s', t, Replaced(l.claim)).(served := s.served + [u]) else Go(s', t, Idle)
    case Mark =>
      Go(s, t, Idle).(mapped := Consume(s.mapped, l.claim.slot),
                      marked := s.marked + {Latest(|s.mappedLog|, l.claim.slot)})
  }

  type Run = seq<(Thread, Action)>

  predicate Runs(run: Run)
    decreases |run|, 0
  {
    run == [] || (Runs(DropLast(run)) && Enabled(Exec(DropLast(run)), Last(run).0, Last(run).1))
  }

  function Exec(run: Run): State
    requires Runs(run)
    decreases |run|, 1
  {
    if run == [] then INIT else Step(Exec(DropLast(run)), Last(run).0, Last(run).1)
  }

  // ----- what every interleaving keeps

  function Slots(log: seq<Allocation>): (xs: seq<AllocSlot>)
    ensures |xs| == |log| && AllRecorded(xs)
  {
    seq(|log|, i requires 0 <= i < |log| => AllocSlot(true, log[i].handle, log[i].len))
  }

  /** Some device's handle of that number was validated for that length. */
  predicate Validated(s: State, h: int, len: nat) {
    exists a <- s.allocLog :: a.handle == h && a.len == len
  }

  /** The mapped ring is a window on its log, up to the consumed flags. */
  predicate MappedWindow(s: State) {
    var n := |s.mappedLog|;
    && s.mapped.next == n % RING
    && forall j | 0 <= j < RING ::
         if j < n then
           var m := s.mappedLog[Latest(n, j)];
           s.mapped.slots[j].valid && s.mapped.slots[j].fd == m.fd && s.mapped.slots[j].len == m.len
         else !s.mapped.slots[j].valid && !s.mapped.slots[j].consumed
  }

  /** The recording that the slot held when it was chosen fits the request. */
  predicate FoundFits(log: seq<Mapping>, c: Claim) {
    && c.slot < c.foundAt <= |log|
    && var m := log[Latest(c.foundAt, c.slot)];
       m.len == c.size && m.fd != c.wanted
  }

  predicate ReadFrom(log: seq<Mapping>, u: Use) {
    && FoundFits(log, u.claim)
    && u.claim.foundAt <= u.readAt <= |log|
    && u.given == log[Latest(u.readAt, u.claim.slot)].fd
  }

  predicate LocalInv(s: State, l: Local) {
    match l
    case Exported(dev, h, fd) => (dev, h, fd) in s.exports
    case Measured(dev, h, fd, len) => (dev, h, fd) in s.exports && Validated(s, h, len)
    case Chosen(c) => FoundFits(s.mappedLog, c)
    case Read(c, readAt, given) => ReadFrom(s.mappedLog, Use(c, readAt, given))
    case Replaced(c) => c.slot < |s.mappedLog|
    case _ => true
  }

  predicate Inv(s: State) {
    && s.allocs == AllocRing(Slots(s.allocLog))
    && MappedWindow(s)
    && (forall m <- s.mappedLog :: (m.dev, m.handle, m.fd) in s.exports && Validated(s, m.handle, m.len))
    && (forall u <- s.uses :: ReadFrom(s.mappedLog, u))
    && (forall u <- s.served :: u in s.uses)
    && (forall t <- s.locals :: LocalInv(s, s.locals[t]))
  }

  /** A looked-up length is the length of a recorded allocation of that number. */
  lemma LookupValidated(s: State, h: int)
    requires s.allocs == AllocRing(Slots(s.allocLog))
    ensures Lookup(s.allocs.slots, h).Some? ==> Validated(s, h, Lookup(s.allocs.slots, h).value)
  {
    var xs := Slots(s.allocLog);
    LookupIsWinner(xs, h);
    if Winner(xs, h).Some? {
      assert s.allocLog[Winner(xs, h).value] in s.allocLog;
    }
  }

  lemma WindowAfterRecord(s: State, t: Thread)
    requires MappedWindow(s) && Enabled(s, t, RecordFd)
    ensures MappedWindow(Step(s, t, RecordFd))
  {
    hide RingOf, Lookup, FindFrom, Latest, Slots;
    var n := |s.mappedLog|;
    forall j: nat | j < RING && j < n
      ensures Latest(n + 1, j) == if n % RING == j then n else Latest(n, j)
    {
      LatestStep(n, j);
    }
  }

  lemma RecordKeepsInv(s: State, t: Thread)
    requires Inv(s) && Enabled(s, t, RecordFd)
    ensures Inv(Step(s, t, RecordFd))
  {
    hide RingOf, Lookup, FindFrom, Latest;
    WindowAfterRecord(s, t);
    hide MappedWindow;
  }

  lemma AllocateKeepsInv(s: State, t: Thread, dev: int, h: int, len: nat)
    requires Inv(s) && Enabled(s, t, Allocate(dev, h, len))
    ensures Inv(Step(s, t, Allocate(dev, h, len)))
  {
    hide RingOf, Lookup, FindFrom, ReadFrom, FoundFits, Latest;
    var log := s.allocLog + [Allocation(dev, h, len)];
    assert Slots(log) == Slots(s.allocLog) + [AllocSlot(true, h, len)];
    AllocRingSnoc(Slots(s.allocLog), AllocSlot(true, h, len));
    assert forall a <- s.allocLog :: a in log;
  }

  lemma ChooseKeepsInv(s: State, t: Thread)
    requires Inv(s) && Enabled(s, t, Choose)
    ensures Inv(Step(s, t, Choose))
  {
    hide RingOf, Lookup, FindFrom, Latest, ReadFrom, Slots;
  }

  lemma UsingKeepsInv(s: State, t: Thread, a: Action)
    requires Inv(s) && Enabled(s, t, a) && (a.ReadSlot? || a.Retry? || a.Mark?)
    ensures Inv(Step(s, t, a))
  {
    hide RingOf, Lookup, FindFrom, Latest, Slots;
    var s' := Step(s, t, a);
    assert forall u <- s.uses :: u in s'.uses;
  }

  /** Every step of every thread keeps the invariant, and a valid slot stays valid. */
  lemma StepKeepsInv(s: State, t: Thread, a: Action)
    requires Inv(s) && Enabled(s, t, a)
    ensures Inv(Step(s, t, a))
    ensures forall j | 0 <= j < RING && s.mapped.slots[j].valid :: Step(s, t, a).mapped.slots[j].valid
  {
    hide RingOf, Lookup, FindFrom, ReadFrom, FoundFits, Latest;
    match a
    case Allocate(dev, h, len) => AllocateKeepsInv(s, t, dev, h, len);
    case Measure => LookupValidated(s, At(s, t).handle);
    case RecordFd => RecordKeepsInv(s, t);
    case Export(_, _, _) =>
    case FailMmap(_, _) =>
    case Choose => ChooseKeepsInv(s, t);
    case _ => UsingKeepsInv(s, t, a);
  }

  /** The invariant, and with it: every descriptor given to a second mmap was reported by an
      earlier MAP or SHARE of some handle, and carries the length of an allocation the shim
      validated for a handle of that number. */
  lemma {:induction false} AnyInterleaving(run: Run)
    requires Runs(run)
    ensures Inv(Exec(run))
    ensures forall u <- Exec(run).uses ::
              exists m <- Exec(run).mappedLog ::
                m.fd == u.given && (m.dev, m.handle, u.given) in Exec(run).exports
                && Validated(Exec(run), m.handle, m.len)
  {
    hide RingOf;
    if run != [] {
      AnyInterleaving(DropLast(run));
      StepKeepsInv(Exec(DropLast(run)), Last(run).0, Last(run).1);
    } else {
      NoAllocations();
    }
    var s := Exec(run);
    forall u | u in s.uses
      ensures exists m <- s.mappedLog ::
                m.fd == u.given && (m.dev, m.handle, u.given) in s.exports && Validated(s, m.handle, m.len)
    {
      assert s.mappedLog[Latest(u.readAt, u.claim.slot)] in s.mappedLog;
    }
  }

  lemma NoAllocations()
    ensures Inv(INIT)
  {
  }

  // ----- when a refused mmap finds a descriptor

  /** A slot is consumed iff the recording that it holds was in it when it was marked. */
  predicate MarksKept(s: State) {
    && (forall k <- s.marked :: 0 <= k < |s.mappedLog|)
    && (forall j | 0 <= j < RING && j < |s.mappedLog| ::
          s.mapped.slots[j].consumed <==> Latest(|s.mappedLog|, j) in s.marked)
  }

  lemma StepKeepsMarks(s: State, t: Thread, a: Action)
    requires Inv(s) && MarksKept(s) && Enabled(s, t, a)
    ensures MarksKept(Step(s, t, a))
  {
    hide RingOf, Lookup, FindFrom, Latest, Slots;
    var n := |s.mappedLog|;
    forall j: nat | j < RING && j < n
      ensures Latest(n + 1, j) == if n % RING == j then n else Latest(n, j)
    {
      LatestStep(n, j);
    }
  }

  lemma {:induction false} RunKeepsMarks(run: Run)
    requires Runs(run)
    ensures MarksKept(Exec(run))
  {
    hide Step, MarksKept, Inv;
    if run != [] {
      RunKeepsMarks(DropLast(run));
      AnyInterleaving(DropLast(run));
      StepKeepsMarks(Exec(DropLast(run)), Last(run).0, Last(run).1);
    } else {
      NoMarks();
    }
  }

  lemma NoMarks()
    ensures MarksKept(INIT)
  {
  }

  /** A recording that can serve: one of the last sixteen, never marked, of the length asked
      for and of another descriptor than the refused one. */
  predicate Usable(s: State, k: int, wanted: int, size: nat) {
    && 0 <= k < |s.mappedLog| <= k + 16
    && k !in s.marked
    && s.mappedLog[k].len == size && s.mappedLog[k].fd != wanted
  }

  /** A usable recording lies in a slot that fits, and a slot that fits holds one. */
  lemma UsableFits(s: State, wanted: int, size: nat)
    requires MappedWindow(s) && MarksKept(s)
    ensures forall k: nat :: Usable(s, k, wanted, size) ==> Fits(s.mapped.slots[k % 16], size, wanted)
    ensures forall j | 0 <= j < 16 && Fits(s.mapped.slots[j], size, wanted) ::
              j < |s.mappedLog| && Usable(s, Latest(|s.mappedLog|, j), wanted, size)
  {
    hide Latest;
    forall k: nat | Usable(s, k, wanted, size)
      ensures Fits(s.mapped.slots[k % 16], size, wanted)
    {
      LatestOf(|s.mappedLog|, k);
      assert k % 16 <= k;
    }
  }

  /** In any run, a refused mmap finds a descriptor iff some recording can serve, and then
      the one that lies in the lowest slot of all that can. */
  lemma RefusedFindsUsable(run: Run, t: Thread)
    requires Runs(run) && At(Exec(run), t).Missing?
    ensures var s, l := Exec(run), At(Exec(run), t);
            var s' := Step(s, t, Choose);
            if exists k: nat :: Usable(s, k, l.wanted, l.size) then
              && At(s', t).Chosen? && At(s', t).claim.slot < |s.mappedLog|
              && var k := Latest(|s.mappedLog|, At(s', t).claim.slot);
                 Usable(s, k, l.wanted, l.size)
                 && forall i: nat :: Usable(s, i, l.wanted, l.size) ==> k % 16 <= i % 16
            else At(s', t).Idle?
  {
    AnyInterleaving(run);
    RunKeepsMarks(run);
    hide Exec, Runs, Usable, Latest, Fits, MappedWindow, MarksKept;
    UsableFits(Exec(run), At(Exec(run), t).wanted, At(Exec(run), t).size);
  }

  // ----- whose length a descriptor is recorded with

  /** The newest allocation of a device's handle. */
  function NewestOf(log: seq<Allocation>, dev: int, h: int): (k: Option<nat>)
    ensures k.Some? ==> k.value < |log| && log[k.value].dev == dev && log[k.value].handle == h
    ensures forall i | 0 <= i < |log| && log[i].dev == dev && log[i].handle == h :: k.Some? && i <= k.value
  {
    if log == [] then None
    else if Last(log).dev == dev && Last(log).handle == h then Some(|log| - 1)
    else NewestOf(DropLast(log), dev, h)
  }

  /** A MAP or SHARE is recorded with the length of the newest allocation of its own device's
      handle exactly when the allocation that decides the lookup has that length; that is so
      when the newest one decides it itself. */
  lemma MeasuresItsOwn(s: State, t: Thread, newest: nat)
    requires Inv(s) && At(s, t).Exported? && NewestOf(s.allocLog, At(s, t).dev, At(s, t).handle) == Some(newest)
    ensures var l, log := At(s, t), s.allocLog;
            At(Step(s, t, Measure), t) == Measured(l.dev, l.handle, l.fd, log[newest].len) <==>
            exists k | 0 <= k < |log| ::
              Decides(Slots(log), k) && log[k].handle == l.handle && log[k].len == log[newest].len
  {
    hide RingOf;
    var xs, h := Slots(s.allocLog), At(s, t).handle;
    LookupIsWinner(xs, h);
    forall k: nat | k < |xs|
      ensures xs[k].handle == h ==> (Decides(xs, k) <==> Winner(xs, h) == Some(k))
    {
      if xs[k].handle == h {
        WinnerDecides(xs, k);
      }
    }
  }

  // ----- which recording a use gets

  function Ordinal(u: Use): int {
    Latest(u.readAt, u.claim.slot)
  }

  /** The recordings that can be made before the cursor overwrites the slot. */
  function Slack(at: nat, slot: Slot): nat {
    (slot - at) % RING
  }

  /** A thread gets the recording it chose exactly when no more recordings were made between
      choosing and reading than the cursor was away from the slot. */
  lemma ChosenIsRead(slot: Slot, foundAt: nat, readAt: nat)
    requires slot < foundAt <= readAt
    ensures Latest(readAt, slot) == Latest(foundAt, slot) <==> readAt - foundAt <= Slack(foundAt, slot)
    ensures Latest(foundAt, slot) <= Latest(readAt, slot)
  {
  }

  /** So a use that was overtaken by no more than that fits its request, in any interleaving. */
  lemma UndisturbedUseFits(run: Run, u: Use)
    requires Runs(run) && u in Exec(run).uses
    ensures u.claim.slot < u.claim.foundAt <= u.readAt <= |Exec(run).mappedLog|
    ensures u.readAt - u.claim.foundAt <= Slack(u.claim.foundAt, u.claim.slot) ==>
              var m := Exec(run).mappedLog[Ordinal(u)];
              u.given == m.fd && m.len == u.claim.size && u.given != u.claim.wanted
  {
    AnyInterleaving(run);
    ChosenIsRead(u.claim.slot, u.claim.foundAt, u.readAt);
  }

  // ----- uses that share a recording overlap

  predicate Busy(l: Local) {
    l.Chosen? || l.Read? || l.Replaced?
  }

  /** Some thread is between the choice and the marking of this claim. */
  predicate Inside(s: State, c: Claim) {
    exists t <- s.locals :: Busy(s.locals[t]) && s.locals[t].claim == c
  }

  /** Pairs of claims that are inside at once, now or at some point of a run. */
  function InsidePairs(s: State): set<(Claim, Claim)> {
    set t, u | t in s.locals && u in s.locals && Busy(s.locals[t]) && Busy(s.locals[u]) ::
      (s.locals[t].claim, s.locals[u].claim)
  }

  function Met(run: Run): set<(Claim, Claim)>
    requires Runs(run)
  {
    (if run == [] then {} else Met(DropLast(run))) + InsidePairs(Exec(run))
  }

  lemma {:induction false} MetAtSomePoint(run: Run, c: Claim, d: Claim) returns (p: nat)
    requires Runs(run) && (c, d) in Met(run)
    ensures p <= |run| && Runs(run[..p]) && Inside(Exec(run[..p]), c) && Inside(Exec(run[..p]), d)
  {
    hide Step;
    if (c, d) in InsidePairs(Exec(run)) {
      p := |run|;
      assert run[..p] == run;
    } else {
      p := MetAtSomePoint(DropLast(run), c, d);
      assert DropLast(run)[..p] == run[..p];
    }
  }

  /** The recording a slot holds, if it has served, is consumed or about to be. */
  predicate ServedIsMarked(s: State) {
    forall u <- s.served :: Latest(|s.mappedLog|, u.claim.slot) == Ordinal(u) ==>
      s.mapped.slots[u.claim.slot].consumed || AboutToMark(s, u.claim)
  }

  predicate AboutToMark(s: State, c: Claim) {
    exists t <- s.locals :: s.locals[t] == Replaced(c)
  }

  /** A claim about to be marked stays so until its thread marks it. */
  lemma StillToMark(s: State, t: Thread, a: Action, c: Claim)
    requires Enabled(s, t, a) && AboutToMark(s, c) && At(s, t) != Replaced(c)
    ensures AboutToMark(Step(s, t, a), c)
  {
    var v :| v in s.locals && s.locals[v] == Replaced(c);
    assert Step(s, t, a).locals[v] == Replaced(c);
  }

  /** A claim on a slot is on a newer recording than any served from that slot, or has been
      inside together with the use that was. */
  predicate Newer(served: seq<Use>, c: Claim, met: set<(Claim, Claim)>) {
    forall u <- served | u.claim.slot == c.slot :: Ordinal(u) < Latest(c.foundAt, c.slot) || (u.claim, c) in met
  }

  predicate OverlapInv(s: State, met: set<(Claim, Claim)>) {
    && ServedIsMarked(s)
    && (forall t <- s.locals | s.locals[t].Chosen? || s.locals[t].Read? :: Newer(s.served, s.locals[t].claim, met))
    && (forall i, k | 0 <= i < k < |s.served| && Ordinal(s.served[i]) == Ordinal(s.served[k]) ::
          (s.served[i].claim, s.served[k].claim) in met)
  }

  lemma ChooseOverlap(s: State, t: Thread, met: set<(Claim, Claim)>)
    requires Inv(s) && Enabled(s, t, Choose) && OverlapInv(s, met)
    ensures OverlapInv(Step(s, t, Choose), met + InsidePairs(Step(s, t, Choose)))
  {
    hide RingOf, Lookup, FindFrom, Latest, MappedWindow, Slots;
    var s' := Step(s, t, Choose);
    var met' := met + InsidePairs(s');
    forall u | u in s.served && AboutToMark(s, u.claim) && At(s, t) != Replaced(u.claim)
      ensures AboutToMark(s', u.claim)
    {
      StillToMark(s, t, Choose, u.claim);
    }
    if At(s', t).Chosen? {
      var c := At(s', t).claim;
      forall u | u in s.served && u.claim.slot == c.slot
        ensures Ordinal(u) < Latest(c.foundAt, c.slot) || (u.claim, c) in met'
      {
        assert ReadFrom(s.mappedLog, u);
        ChosenIsRead(c.slot, u.readAt, c.foundAt);
        if Ordinal(u) == Latest(c.foundAt, c.slot) {
          var v :| v in s.locals && s.locals[v] == Replaced(u.claim);
          assert v in s'.locals && s'.locals[v] == Replaced(u.claim) && t in s'.locals;
        }
      }
    }
  }

  /** A use that worked on the recording that a thread has read was inside together with it. */
  lemma SharersMet(s: State, t: Thread, met: set<(Claim, Claim)>)
    requires Inv(s) && At(s, t).Read? && OverlapInv(s, met)
    ensures forall u <- s.served | Ordinal(u) == Latest(At(s, t).readAt, At(s, t).claim.slot) ::
              (u.claim, At(s, t).claim) in met
  {
    hide RingOf, Lookup, FindFrom, Latest, MappedWindow, Slots;
    var c := At(s, t).claim;
    forall u | u in s.served && Ordinal(u) == Latest(At(s, t).readAt, c.slot)
      ensures (u.claim, c) in met
    {
      assert ReadFrom(s.mappedLog, u);
      ChosenIsRead(c.slot, c.foundAt, At(s, t).readAt);
    }
  }

  lemma NewerThanOneMore(served: seq<Use>, v: Use, c: Claim, met: set<(Claim, Claim)>, met': set<(Claim, Claim)>)
    requires Newer(served, c, met) && met <= met' && (v.claim, c) in met'
    ensures Newer(served + [v], c, met')
  {
    hide Latest;
  }

  lemma RetryOverlap(s: State, t: Thread, works: bool, met: set<(Claim, Claim)>)
    requires Inv(s) && Enabled(s, t, Retry(works)) && OverlapInv(s, met)
    ensures OverlapInv(Step(s, t, Retry(works)), met + InsidePairs(Step(s, t, Retry(works))))
  {
    hide RingOf, Lookup, FindFrom, Latest, MappedWindow, Slots;
    var s' := Step(s, t, Retry(works));
    assert forall i | 0 <= i < |s.served| :: s'.served[i] == s.served[i] && s.served[i] in s.served;
    var met' := met + InsidePairs(s');
    forall u | u in s.served && AboutToMark(s, u.claim) && At(s, t) != Replaced(u.claim)
      ensures AboutToMark(s', u.claim)
    {
      StillToMark(s, t, Retry(works), u.claim);
    }
    if works {
      var c := At(s, t).claim;
      assert s'.locals[t] == Replaced(c);
      SharersMet(s, t, met);
      forall w | w in s'.locals && (s'.locals[w].Chosen? || s'.locals[w].Read?)
        ensures Newer(s'.served, s'.locals[w].claim, met')
      {
        assert (c, s'.locals[w].claim) in met';
        NewerThanOneMore(s.served, Last(s'.served), s'.locals[w].claim, met, met');
      }
      hide Newer;
    }
  }

  lemma OtherOverlap(s: State, t: Thread, a: Action, met: set<(Claim, Claim)>)
    requires Inv(s) && Enabled(s, t, a) && OverlapInv(s, met) && !a.Choose? && !a.Retry?
    ensures OverlapInv(Step(s, t, a), met + InsidePairs(Step(s, t, a)))
  {
    hide RingOf, Lookup, FindFrom, Latest;
    var s' := Step(s, t, a);
    forall u | u in s.served && AboutToMark(s, u.claim) && At(s, t) != Replaced(u.claim)
      ensures AboutToMark(s', u.claim)
    {
      StillToMark(s, t, a, u.claim);
    }
    if a.RecordFd? {
      var n := |s.mappedLog|;
      forall u | u in s.served
        ensures Latest(n + 1, u.claim.slot) == Ordinal(u) ==>
                  n % RING != u.claim.slot && Latest(n, u.claim.slot) == Ordinal(u)
      {
        assert ReadFrom(s.mappedLog, u);
        LatestStep(n, u.claim.slot);
      }
    }
  }

  lemma {:induction false} RunOverlap(run: Run)
    requires Runs(run)
    ensures OverlapInv(Exec(run), Met(run))
  {
    if run != [] {
      var most, t, a := DropLast(run), Last(run).0, Last(run).1;
      AnyInterleaving(most);
      RunOverlap(most);
      match a
      case Choose => ChooseOverlap(Exec(most), t, Met(most));
      case Retry(works) => RetryOverlap(Exec(most), t, works, Met(most));
      case _ => OtherOverlap(Exec(most), t, a, Met(most));
    }
  }

  /** Claims have numbers of their own, and serve at most once each. */
  predicate BusyApart(s: State) {
    && (forall t <- s.locals | Busy(s.locals[t]) :: s.locals[t].claim.id < s.claims)
    && (forall t, u | t in s.locals && u in s.locals && t != u && Busy(s.locals[t]) && Busy(s.locals[u]) ::
          s.locals[t].claim.id != s.locals[u].claim.id)
  }

  predicate ServedApart(s: State) {
    && (forall v <- s.served :: v.claim.id < s.claims)
    && (forall t <- s.locals, v <- s.served | s.locals[t].Chosen? || s.locals[t].Read? ::
          v.claim.id != s.locals[t].claim.id)
    && (forall i, k | 0 <= i < k < |s.served| :: s.served[i].claim.id != s.served[k].claim.id)
  }

  lemma StepKeepsBusyApart(s: State, t: Thread, a: Action)
    requires Enabled(s, t, a) && BusyApart(s)
    ensures BusyApart(Step(s, t, a))
  {
    hide RingOf, Lookup, FindFrom;
  }

  lemma StepKeepsServedApart(s: State, t: Thread, a: Action)
    requires Enabled(s, t, a) && BusyApart(s) && ServedApart(s)
    ensures ServedApart(Step(s, t, a))
  {
    hide RingOf, Lookup, FindFrom;
    var s' := Step(s, t, a);
    assert forall i | 0 <= i < |s.served| :: s'.served[i] == s.served[i] && s.served[i] in s.served;
  }

  lemma {:induction false} RunKeepsClaims(run: Run)
    requires Runs(run)
    ensures BusyApart(Exec(run)) && ServedApart(Exec(run))
  {
    hide Step;
    if run != [] {
      RunKeepsClaims(DropLast(run));
      StepKeepsBusyApart(Exec(DropLast(run)), Last(run).0, Last(run).1);
      StepKeepsServedApart(Exec(DropLast(run)), Last(run).0, Last(run).1);
    }
  }

  /** In any interleaving, two working uses of one recording belong to different claims, and
      at some point both were between the choice of their slot and its marking. */
  lemma SharingOverlaps(run: Run, i: nat, k: nat) returns (p: nat)
    requires Runs(run) && i < k < |Exec(run).served|
    requires Ordinal(Exec(run).served[i]) == Ordinal(Exec(run).served[k])
    ensures Exec(run).served[i].claim != Exec(run).served[k].claim
    ensures p <= |run| && Runs(run[..p])
    ensures Inside(Exec(run[..p]), Exec(run).served[i].claim) && Inside(Exec(run[..p]), Exec(run).served[k].claim)
  {
    RunOverlap(run);
    RunKeepsClaims(run);
    p := MetAtSomePoint(run, Exec(run).served[i].claim, Exec(run).served[k].claim);
  }

  // ----- one substitution at a time

  /** A slot is chosen only while no other thread is between a choice and its marking; all
      other steps interleave freely. */
  predicate Exclusive(run: Run)
    requires Runs(run)
  {
    run == [] ||
    (&& Exclusive(DropLast(run))
     && (Last(run).1.Choose? ==> forall t <- Exec(DropLast(run)).locals :: !Busy(Exec(DropLast(run)).locals[t])))
  }

  lemma {:induction false} NothingMet(run: Run)
    requires Runs(run) && Exclusive(run)
    ensures forall t, u | t in Exec(run).locals && u in Exec(run).locals && t != u ::
              !Busy(Exec(run).locals[t]) || !Busy(Exec(run).locals[u])
    ensures forall c, d | (c, d) in Met(run) :: c == d
  {
    if run != [] {
      NothingMet(DropLast(run));
    }
  }

  predicate ServedOnce(served: seq<Use>) {
    forall i, k | 0 <= i < k < |served| :: Ordinal(served[i]) != Ordinal(served[k])
  }

  /** Under that exclusion alone each recording serves at most one substitution, and there
      are no more substitutions than recordings. */
  lemma ExclusiveServesOnce(run: Run)
    requires Runs(run) && Exclusive(run)
    ensures ServedOnce(Exec(run).served)
    ensures |Exec(run).served| <= |Exec(run).mappedLog|
  {
    hide Exclusive;
    NothingMet(run);
    RunOverlap(run);
    RunKeepsClaims(run);
    AnyInterleaving(run);
    var s := Exec(run);
    var ordinals := seq(|s.served|, i requires 0 <= i < |s.served| => Ordinal(s.served[i]));
    forall i | 0 <= i < |ordinals|
      ensures 0 <= ordinals[i] < |s.mappedLog|
    {
      assert s.served[i] in s.served && ReadFrom(s.mappedLog, s.served[i]);
    }
    DistinctBelow(ordinals, |s.mappedLog|);
  }

  // ----- one operation at a time

  /** A single-threaded run: a thread acts only while no other is inside an operation. */
  predicate Serial(run: Run)
    requires Runs(run)
  {
    run == [] ||
    (&& Serial(DropLast(run))
     && forall u <- Exec(DropLast(run)).locals :: u == Last(run).0 || Exec(DropLast(run)).locals[u].Idle?)
  }

  lemma {:induction false} SerialIsExclusive(run: Run)
    requires Runs(run) && Serial(run)
    ensures Exclusive(run)
  {
    if run != [] {
      SerialIsExclusive(DropLast(run));
    }
  }

  /** Nothing is recorded between choosing and reading. */
  predicate ReadsWhatItChose(s: State) {
    && (forall u <- s.uses :: u.claim.foundAt == u.readAt)
    && (forall t <- s.locals | s.locals[t].Chosen? :: s.locals[t].claim.foundAt == |s.mappedLog|)
    && (forall t <- s.locals | s.locals[t].Read? :: s.locals[t].claim.foundAt == s.locals[t].readAt)
  }

  lemma StepReadsWhatItChose(s: State, t: Thread, a: Action)
    requires Enabled(s, t, a) && ReadsWhatItChose(s)
    requires forall u <- s.locals :: u == t || s.locals[u].Idle?
    ensures ReadsWhatItChose(Step(s, t, a))
  {
    hide RingOf, Lookup, FindFrom;
  }

  lemma {:induction false} SerialReadsWhatItChose(run: Run)
    requires Runs(run) && Serial(run)
    ensures ReadsWhatItChose(Exec(run))
  {
    hide Step;
    if run != [] {
      SerialReadsWhatItChose(DropLast(run));
      StepReadsWhatItChose(Exec(DropLast(run)), Last(run).0, Last(run).1);
    }
  }

  /** Over any single-threaded run a recorded descriptor serves at most one substitution,
      there are no more substitutions than recordings, and each uses a descriptor other
      than the refused one, recorded with the length asked for. */
  lemma SerialSubstitution(run: Run)
    requires Runs(run) && Serial(run)
    ensures ServedOnce(Exec(run).served)
    ensures |Exec(run).served| <= |Exec(run).mappedLog|
    ensures forall u <- Exec(run).uses ::
              && 0 <= Ordinal(u) < |Exec(run).mappedLog|
              && var m := Exec(run).mappedLog[Ordinal(u)];
                 u.given == m.fd && m.len == u.claim.size && u.given != u.claim.wanted
  {
    SerialIsExclusive(run);
    ExclusiveServesOnce(run);
    AnyInterleaving(run);
    SerialReadsWhatItChose(run);
  }

  // ----- what interleavings do not keep

  lemma Extend(run: Run, t: Thread, a: Action) returns (run': Run)
    requires Runs(run) && Enabled(Exec(run), t, a)
    ensures run' == run + [(t, a)] && Runs(run') && Exec(run') == Step(Exec(run), t, a)
    ensures !a.Choose? && Exclusive(run) ==> Exclusive(run')
  {
    run' := run + [(t, a)];
    assert DropLast(run') == run;
  }

  /** A MAP whose length is known is recorded. */
  lemma RecordOne(run: Run, t: Thread, dev: int, h: int, fd: int, len: nat) returns (run': Run)
    requires Runs(run) && At(Exec(run), t).Idle? && Lookup(Exec(run).allocs.slots, h) == Some(len)
    ensures Runs(run') && (Exclusive(run) ==> Exclusive(run'))
    ensures var s, s' := Exec(run), Exec(run');
            && s' == s.(locals := s.locals[t := Idle], exports := s'.exports, mapped := s'.mapped,
                        mappedLog := s.mappedLog + [Mapping(dev, h, fd, len)])
            && s'.mapped == Put(s.mapped, MappedSlot(true, fd, len, false))
  {
    hide RingOf, Lookup, FindFrom, Runs, Exec, Exclusive;
    run' := Extend(run, t, Export(dev, h, fd));
    run' := Extend(run', t, Measure);
    run' := Extend(run', t, RecordFd);
    assert Exec(run').locals == Exec(run).locals[t := Idle];
  }

  /** A refused mmap chooses slot 0. */
  lemma ChooseFirst(run: Run, t: Thread, wanted: int, size: nat) returns (run': Run)
    requires Runs(run) && At(Exec(run), t).Idle? && Fits(Exec(run).mapped.slots[0], size, wanted)
    ensures Runs(run')
    ensures var s, s' := Exec(run), Exec(run');
            && s' == s.(locals := s'.locals, claims := s.claims + 1)
            && s'.locals == s.locals[t := Chosen(Claim(s.claims, wanted, size, 0, |s.mappedLog|))]
    ensures Exclusive(run) && (forall u <- Exec(run).locals :: !Busy(Exec(run).locals[u])) ==> Exclusive(run')
  {
    hide RingOf, Lookup, Runs, Exec;
    var run1 := Extend(run, t, FailMmap(wanted, size));
    run' := Extend(run1, t, Choose);
    assert DropLast(run') == run1;
  }

  /** The chosen slot is read, and what it holds is mapped. */
  lemma Substitute(run: Run, t: Thread) returns (run': Run)
    requires Runs(run) && At(Exec(run), t).Chosen?
    ensures Runs(run') && (Exclusive(run) ==> Exclusive(run'))
    ensures var s, s', c := Exec(run), Exec(run'), At(Exec(run), t).claim;
            var u := Use(c, |s.mappedLog|, s.mapped.slots[c.slot].fd);
            s' == s.(locals := s.locals[t := Replaced(c)], uses := s.uses + [u], served := s.served + [u])
  {
    hide RingOf, Lookup, FindFrom, Runs, Exec, Exclusive;
    run' := Extend(run, t, ReadSlot);
    run' := Extend(run', t, Retry(true));
    assert Exec(run').locals == Exec(run).locals[t := Replaced(At(Exec(run), t).claim)];
  }

  lemma NoSteps()
    ensures Runs([]) && Exclusive([]) && Exec([]) == INIT
  {
  }

  lemma ThreeAllocations() returns (run: Run)
    ensures Runs(run) && Exclusive(run) && Exec(run).locals == map[0 := Idle]
    ensures var s := Exec(run);
            s == INIT.(locals := s.locals, allocs := s.allocs, allocLog := s.allocLog)
    ensures Exec(run).allocLog == [Allocation(3, 1, 100), Allocation(4, 1, 200), Allocation(3, 2, 100)]
    ensures Lookup(Exec(run).allocs.slots, 1) == Some(200) && Lookup(Exec(run).allocs.slots, 2) == Some(100)
  {
    NoSteps();
    hide Lookup, FindFrom, Runs, Exec, Exclusive;
    run := Extend([], 0, Allocate(3, 1, 100));
    run := Extend(run, 0, Allocate(4, 1, 200));
    run := Extend(run, 0, Allocate(3, 2, 100));
    LookupHighest(Exec(run).allocs.slots, 1, 1);
    LookupHighest(Exec(run).allocs.slots, 2, 2);
  }

  /** Handle 1 of device 3 is allocated with length 100, then handle 1 of device 4 with
      length 200; a MAP of the first is recorded with the second's length. Handle 2 is for
      the runs below. */
  lemma OtherDevicesLength() returns (run: Run)
    ensures Runs(run) && Exclusive(run)
    ensures Exec(run).allocLog == [Allocation(3, 1, 100), Allocation(4, 1, 200), Allocation(3, 2, 100)]
    ensures Exec(run).mappedLog == [Mapping(3, 1, 5, 200)]
    ensures Exec(run).locals == map[0 := Idle] && Exec(run).served == [] && Exec(run).claims == 0
    ensures Lookup(Exec(run).allocs.slots, 2) == Some(100) && Fits(Exec(run).mapped.slots[0], 200, 9)
  {
    hide Lookup, FindFrom, Runs, Exec, Exclusive;
    run := ThreeAllocations();
    run := RecordOne(run, 0, 3, 1, 5, 200);
  }

  /** Without the exclusion one recording can serve twice: find, read and mark are three lock
      sections. */
  lemma ServedTwice() returns (run: Run)
    ensures Runs(run) && !ServedOnce(Exec(run).served)
    ensures |Exec(run).served| > |Exec(run).mappedLog|
  {
    hide RingOf, Lookup, FindFrom, Runs, Exec;
    run := OtherDevicesLength();
    run := ChooseFirst(run, 1, 9, 200);
    run := ChooseFirst(run, 2, 9, 200);
    run := Substitute(run, 1);
    run := Substitute(run, 2);
    assert Ordinal(Exec(run).served[0]) == Ordinal(Exec(run).served[1]);
  }

  /** Even with it, a thread overtaken by sixteen recordings can be given the descriptor it
      was refused, recorded with another length. */
  lemma Overtaken() returns (run: Run)
    ensures Runs(run) && Exclusive(run)
    ensures exists u <- Exec(run).served ::
              u.given == u.claim.wanted && 0 <= Ordinal(u) < |Exec(run).mappedLog|
              && Exec(run).mappedLog[Ordinal(u)].len != u.claim.size
  {
    hide RingOf, Lookup, FindFrom, Runs, Exec, Exclusive;
    run := OtherDevicesLength();
    run := ChooseFirst(run, 1, 9, 200);
    var k := 0;
    while k < RING
      invariant k <= RING && Runs(run) && Exclusive(run)
      invariant At(Exec(run), 0).Idle? && Lookup(Exec(run).allocs.slots, 2) == Some(100)
      invariant At(Exec(run), 1) == Chosen(Claim(0, 9, 200, 0, 1))
      invariant |Exec(run).mappedLog| == 1 + k && Exec(run).served == []
      invariant k > 0 ==> Last(Exec(run).mappedLog) == Mapping(3, 2, 9, 100)
    {
      run := RecordOne(run, 0, 3, 2, 9, 100);
      k := k + 1;
    }
    AnyInterleaving(run);
    assert Latest(17, 0) == 16;
    run := Substitute(run, 1);
    assert Last(Exec(run).served) in Exec(run).served;
  }
}
