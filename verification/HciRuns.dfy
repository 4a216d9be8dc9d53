/** Any interleaving of firmware and SCO configurations: who owns each buffer, how often each
    configuration reports, and in which order it sends. */
module HciRuns {
  import opened Basics
  import opened HciPacket
  import opened HciConfig

  // ----- ownership along a trace

  /** The buffers of the library, of the stack, and all there ever were. */
  datatype Owners = Owners(library: set<nat>, stack: set<nat>, ever: set<nat>)

  const NO_BUFFERS: Owners := Owners({}, {}, {})

  function Pass(o: Owners, e: Event): Owners {
    match e
    case Alloc(Some(id)) => o.(library := o.library + {id}, ever := o.ever + {id})
    case Deliver(id) => o.(library := o.library + {id}, ever := o.ever + {id})
    case Dealloc(id) => o.(library := o.library - {id})
    case Xmit(_, id, _, _, true) => o.(library := o.library - {id}, stack := o.stack + {id})
    case _ => o
  }

  /** Allocation and delivery bring new buffers; the library reads, sends and gives back only
      buffers that it owns. */
  predicate Orderly(o: Owners, e: Event) {
    match e
    case Alloc(Some(id)) => id !in o.ever
    case Deliver(id) => id !in o.ever
    case Dealloc(id) => id in o.library
    case Parse(id) => id in o.library
    case Xmit(_, id, _, _, _) => id in o.library
    case _ => true
  }

  function PassAll(o: Owners, es: seq<Event>): Owners {
    Fold(Pass, o, es)
  }

  predicate AllOrderly(o: Owners, es: seq<Event>) {
    Along(Pass, Orderly, o, es)
  }

  lemma PassOne(o: Owners, es: seq<Event>, e: Event)
    ensures PassAll(o, es + [e]) == Pass(PassAll(o, es), e)
    ensures AllOrderly(o, es + [e]) == (AllOrderly(o, es) && Orderly(PassAll(o, es), e))
  {
    FoldOne(Pass, o, es, e);
    AlongOne(Pass, Orderly, o, es, e);
  }

  lemma PassAppend(o: Owners, a: seq<Event>, b: seq<Event>)
    ensures PassAll(o, a + b) == PassAll(PassAll(o, a), b)
    ensures AllOrderly(o, a + b) == (AllOrderly(o, a) && AllOrderly(PassAll(o, a), b))
  {
    FoldAppend(Pass, o, a, b);
    AlongAppend(Pass, Orderly, o, a, b);
  }

  predicate FreshAnswer(o: Owners, a: Answer) {
    a.NoBuffer? || a.id !in o.ever
  }

  /** A send leaves the library with nothing more than before: the buffer it allocated is
      the stack's, or given back, or never was. */
  lemma SendLeavesNothing(o: Owners, kind: Kind, opcode: Opcode, params: seq<byte>, a: Answer)
    requires FreshAnswer(o, a) && o.library == {}
    ensures var es := SendEvents(kind, opcode, params, a);
            && AllOrderly(o, es)
            && PassAll(o, es) == Owners({}, o.stack + (if a.Accepted? then {a.id} else {}),
                                        o.ever + (if a.NoBuffer? then {} else {a.id}))
  {
    var es := SendEvents(kind, opcode, params, a);
    PassOne(o, [], es[0]);
    PassOne(o, [es[0]], es[1]);
    assert [] + [es[0]] == [es[0]] && [es[0]] + [es[1]] == [es[0], es[1]];
    if a.Refused? {
      PassOne(o, [es[0], es[1]], es[2]);
      PassOne(o, [es[0], es[1], es[2]], es[3]);
      assert [es[0], es[1]] + [es[2]] == [es[0], es[1], es[2]] && [es[0], es[1], es[2]] + [es[3]] == es;
    } else {
      assert es == [es[0], es[1]];
    }
    assert o.ever + {} == o.ever && o.stack + {} == o.stack;
  }

  // ----- configurations and their interleavings

  type Address = a: seq<byte> | |a| == 6 witness [0, 0, 0, 0, 0, 0]

  /** One configuration: the packets accepted for it, what it still waits for, what it
      reported. */
  datatype Config = Config(kind: Kind, addr: Address, sent: seq<seq<byte>>, waiting: Option<Opcode>, reports: seq<bool>)

  datatype World = World(configs: seq<Config>, trace: seq<Event>)

  /** A step of the world: a configuration is started, or a buffer with an event is delivered
      to one that waits. */
  datatype Step =
    | Start(kind: Kind, addr: Address, answer: Answer)
    | Complete(i: nat, evt: nat, event: seq<byte>, answer: Answer)

  /** What a configuration sees of the events of its own step. */
  function Observe(c: Config, e: Event): Config {
    match e
    case Xmit(op, _, packet, _, true) => c.(sent := c.sent + [packet], waiting := Some(op))
    case Done(_, ok) => c.(reports := c.reports + [ok])
    case _ => c
  }

  function ObserveAll(c: Config, es: seq<Event>): Config {
    Fold(Observe, c, es)
  }

  function StepEvents(w: World, s: Step): seq<Event>
    requires Enabled(w, s)
  {
    match s
    case Start(kind, addr, a) => StartEvents(kind, addr, a)
    case Complete(i, evt, event, a) =>
      [Deliver(evt)] + CompletionEvents(w.configs[i].kind, evt, ParseEvent(event).0, a)
  }

  predicate Enabled(w: World, s: Step) {
    match s
    case Start(_, _, a) => FreshAnswer(PassAll(NO_BUFFERS, w.trace), a)
    case Complete(i, evt, event, a) =>
      && |event| > EVT_CMD_CMPL_OPCODE + 2
      && i < |w.configs| && w.configs[i].waiting.Some?
      && evt !in PassAll(NO_BUFFERS, w.trace).ever
      && FreshAnswer(PassAll(NO_BUFFERS, w.trace), a) && (a.NoBuffer? || a.id != evt)
  }

  function Next(w: World, s: Step): World
    requires Enabled(w, s)
  {
    var es := StepEvents(w, s);
    match s
    case Start(kind, addr, _) =>
      World(w.configs + [ObserveAll(Config(kind, addr, [], None, []), es)], w.trace + es)
    case Complete(i, _, _, _) =>
      World(w.configs[i := ObserveAll(w.configs[i].(waiting := None), es)], w.trace + es)
  }

  const IDLE: World := World([], [])

  predicate Runs(w: World, steps: seq<Step>)
    decreases |steps|
  {
    steps == [] || (Enabled(w, steps[0]) && Runs(Next(w, steps[0]), steps[1..]))
  }

  function Exec(w: World, steps: seq<Step>): World
    requires Runs(w, steps)
    decreases |steps|
  {
    if steps == [] then w else Exec(Next(w, steps[0]), steps[1..])
  }

  // ----- buffers, whatever completions arrive

  /** Between steps the library owns nothing, and all it did was orderly. */
  predicate BuffersSettled(w: World) {
    AllOrderly(NO_BUFFERS, w.trace) && PassAll(NO_BUFFERS, w.trace).library == {}
  }

  lemma StepSettles(w: World, s: Step)
    requires BuffersSettled(w) && Enabled(w, s)
    ensures BuffersSettled(Next(w, s))
  {
    hide CommandPacket, PassAll, AllOrderly, ParseEvent, SendEvents;
    var o, es := PassAll(NO_BUFFERS, w.trace), StepEvents(w, s);
    PassAppend(NO_BUFFERS, w.trace, es);
    match s
    case Start(kind, addr, a) =>
      if kind.Fw? {
        SendLeavesNothing(o, Fw, WRITE_BD_ADDRESS, BdAddressParams(addr), a);
      } else {
        SendLeavesNothing(o, Sco, WRITE_PCM_SETTINGS, PCM_SETTINGS, a);
      }
    case Complete(i, evt, event, a) =>
      var kind, op := w.configs[i].kind, ParseEvent(event).0;
      var head := [Deliver(evt), Parse(evt), Dealloc(evt)];
      var tail := ReactionEvents(kind, React(kind, op), a);
      assert es == head + tail;
      PassAppend(o, head, tail);
      CompletionGivesBack(o, evt);
      ReactionLeavesNothing(PassAll(o, head), kind, op, a);
  }

  lemma ReactionLeavesNothing(o: Owners, kind: Kind, op: Opcode, a: Answer)
    requires FreshAnswer(o, a) && o.library == {}
    ensures var es := ReactionEvents(kind, React(kind, op), a);
            AllOrderly(o, es) && PassAll(o, es).library == {}
  {
    hide CommandPacket, SendEvents;
    var reaction := React(kind, op);
    if reaction.Send? {
      SendLeavesNothing(o, kind, reaction.opcode, reaction.params, a);
    } else {
      var es := ReactionEvents(kind, reaction, a);
      PassOne(o, [], es[0]);
      assert [] + [es[0]] == es;
    }
  }

  lemma CompletionGivesBack(o: Owners, evt: nat)
    requires evt !in o.ever && o.library == {}
    ensures AllOrderly(o, [Deliver(evt), Parse(evt), Dealloc(evt)])
    ensures PassAll(o, [Deliver(evt), Parse(evt), Dealloc(evt)]) == o.(ever := o.ever + {evt})
  {
    PassOne(o, [], Deliver(evt));
    PassOne(o, [Deliver(evt)], Parse(evt));
    PassOne(o, [Deliver(evt), Parse(evt)], Dealloc(evt));
    assert [] + [Deliver(evt)] == [Deliver(evt)];
    assert [Deliver(evt)] + [Parse(evt)] == [Deliver(evt), Parse(evt)];
    assert [Deliver(evt), Parse(evt)] + [Dealloc(evt)] == [Deliver(evt), Parse(evt), Dealloc(evt)];
  }

  /** How often a buffer leaves the library's hands for good. */
  function Ends(es: seq<Event>, id: nat): nat {
    if es == [] then 0
    else
      Ends(DropLast(es), id) +
      match Last(es)
      case Dealloc(d) => if d == id then 1 else 0
      case Xmit(_, x, _, _, true) => if x == id then 1 else 0
      case _ => 0
  }

  lemma {:induction false} EndsOnce(es: seq<Event>, id: nat)
    requires AllOrderly(NO_BUFFERS, es)
    ensures var o := PassAll(NO_BUFFERS, es);
            && (id in o.library ==> id in o.ever)
            && Ends(es, id) == if id in o.ever && id !in o.library then 1 else 0
  {
    if es != [] {
      EndsOnce(DropLast(es), id);
    }
  }

  lemma {:induction false} OrderlyPrefix(es: seq<Event>, p: nat)
    requires p <= |es| && AllOrderly(NO_BUFFERS, es)
    ensures AllOrderly(NO_BUFFERS, es[..p])
  {
    if p < |es| {
      OrderlyPrefix(DropLast(es), p);
      assert DropLast(es)[..p] == es[..p];
    } else {
      assert es[..p] == es;
    }
  }

  lemma {:induction false} RunSettles(w: World, steps: seq<Step>)
    requires BuffersSettled(w) && Runs(w, steps)
    ensures BuffersSettled(Exec(w, steps))
    decreases |steps|
  {
    if steps != [] {
      StepSettles(w, steps[0]);
      RunSettles(Next(w, steps[0]), steps[1..]);
    }
  }

  /** Over any interleaving, with any completions, refusals and allocation failures: every
      buffer allocated or delivered is handed to an accepted transmit or given back exactly
      once, and none is read once it has been. */
  lemma EveryBufferOnce(steps: seq<Step>)
    requires Runs(IDLE, steps)
    ensures var t := Exec(IDLE, steps).trace;
            && (forall id <- PassAll(NO_BUFFERS, t).ever :: Ends(t, id) == 1)
            && (forall p, id | 0 <= p < |t| && t[p] == Parse(id) :: Ends(t[..p], id) == 0)
  {
    RunSettles(IDLE, steps);
    var t := Exec(IDLE, steps).trace;
    forall id | id in PassAll(NO_BUFFERS, t).ever
      ensures Ends(t, id) == 1
    {
      EndsOnce(t, id);
    }
    forall p, id | 0 <= p < |t| && t[p] == Parse(id)
      ensures Ends(t[..p], id) == 0
    {
      OrderlyPrefix(t, p + 1);
      assert DropLast(t[..p + 1]) == t[..p] && Last(t[..p + 1]) == t[p];
      EndsOnce(t[..p], id);
    }
  }

  // ----- one report for every start, whatever completions arrive

  /** What a configuration sees of a send. */
  function AfterSend(c: Config, opcode: Opcode, params: seq<byte>, a: Answer): Config {
    if a.Accepted? then c.(sent := c.sent + [CommandPacket(opcode, params)], waiting := Some(opcode))
    else c.(reports := c.reports + [false])
  }

  lemma ObserveSend(c: Config, opcode: Opcode, params: seq<byte>, a: Answer)
    ensures ObserveAll(c, SendEvents(c.kind, opcode, params, a)) == AfterSend(c, opcode, params, a)
  {
    var es := SendEvents(c.kind, opcode, params, a);
    FoldOne(Observe, c, [], es[0]);
    FoldOne(Observe, c, [es[0]], es[1]);
    assert [] + [es[0]] == [es[0]] && [es[0]] + [es[1]] == [es[0], es[1]];
    if a.Refused? {
      FoldOne(Observe, c, [es[0], es[1]], es[2]);
      FoldOne(Observe, c, [es[0], es[1], es[2]], es[3]);
      assert [es[0], es[1]] + [es[2]] == [es[0], es[1], es[2]] && [es[0], es[1], es[2]] + [es[3]] == es;
    } else {
      assert es == [es[0], es[1]];
    }
  }

  function AfterReaction(c: Config, r: Reaction, a: Answer): Config {
    match r
    case Send(opcode, params) => AfterSend(c, opcode, params, a)
    case Finish(ok) => c.(reports := c.reports + [ok])
  }

  lemma ObserveCompletion(c: Config, evt: nat, opcode: Opcode, a: Answer)
    ensures ObserveAll(c, [Deliver(evt)] + CompletionEvents(c.kind, evt, opcode, a))
         == AfterReaction(c, React(c.kind, opcode), a)
  {
    var head := [Deliver(evt), Parse(evt), Dealloc(evt)];
    var r := React(c.kind, opcode);
    var tail := ReactionEvents(c.kind, r, a);
    assert [Deliver(evt)] + CompletionEvents(c.kind, evt, opcode, a) == head + tail;
    FoldAppend(Observe, c, head, tail);
    FoldOne(Observe, c, [], head[0]);
    FoldOne(Observe, c, [head[0]], head[1]);
    FoldOne(Observe, c, [head[0], head[1]], head[2]);
    assert [] + [head[0]] == [head[0]] && [head[0]] + [head[1]] == [head[0], head[1]];
    assert [head[0], head[1]] + [head[2]] == head;
    if r.Send? {
      ObserveSend(c, r.opcode, r.params, a);
    } else {
      FoldOne(Observe, c, [], tail[0]);
      assert [] + [tail[0]] == tail;
    }
  }

  /** A configuration waits, or has reported; never both, and never more than once. */
  predicate ReportsOnce(c: Config) {
    |c.reports| == if c.waiting.Some? then 0 else 1
  }

  /** The packets of a configuration, in order: the address, last byte first; or PCM
      settings, PCM sync settings, PCM link settings and the SCO data path. */
  function Chain(kind: Kind, addr: Address): seq<seq<byte>> {
    if kind.Fw? then
      [[0x22, 0xFC, 0x08, 0xFE, 0x06, addr[5], addr[4], addr[3], addr[2], addr[1], addr[0]]]
    else
      [[0x07, 0xFC, 0x01, 0x02],
       [0x28, 0xFC, 0x03, 0x03, 0x00, 0x03],
       [0x29, 0xFC, 0x02, 0x03, 0x00],
       [0x1D, 0xFC, 0x01, 0x01]]
  }

  /** The opcode that a packet of a chain begins with. */
  function OpcodeOf(packet: seq<byte>): Opcode {
    if |packet| < 2 then 0 else FromStream(packet[0], packet[1])
  }

  /** What was accepted is a prefix of the chain; what is waited for is its end; success is
      reported for the whole chain and failure for less. */
  predicate FollowsChain(c: Config) {
    && ReportsOnce(c) && c.sent <= Chain(c.kind, c.addr)
    && (c.waiting.Some? ==> c.sent != [] && c.waiting.value == OpcodeOf(Last(c.sent)))
    && (c.waiting.None? ==> (c.reports[0] <==> c.sent == Chain(c.kind, c.addr)))
  }

  predicate Faithful(w: World, s: Step)
    requires Enabled(w, s)
  {
    s.Complete? ==> Some(ParseEvent(s.event).0) == w.configs[s.i].waiting
  }

  predicate FaithfulRuns(w: World, steps: seq<Step>)
    requires Runs(w, steps)
    decreases |steps|
  {
    steps == [] || (Faithful(w, steps[0]) && FaithfulRuns(Next(w, steps[0]), steps[1..]))
  }

  lemma StepReports(w: World, s: Step)
    requires Enabled(w, s) && forall c <- w.configs :: ReportsOnce(c)
    ensures forall c <- Next(w, s).configs :: ReportsOnce(c)
  {
    hide ObserveAll, SendEvents, CompletionEvents;
    match s
    case Start(kind, addr, a) => ObserveStart(kind, addr, a);
    case Complete(i, evt, event, a) =>
      assert w.configs[i] in w.configs;
      ObserveCompletion(w.configs[i].(waiting := None), evt, ParseEvent(event).0, a);
  }

  lemma ObserveStart(kind: Kind, addr: Address, a: Answer)
    ensures var c, packet := Config(kind, addr, [], None, []), Chain(kind, addr)[0];
            ObserveAll(c, StartEvents(kind, addr, a)) ==
            if a.Accepted? then c.(sent := [packet], waiting := Some(OpcodeOf(packet)))
            else c.(reports := [false])
  {
    var c := Config(kind, addr, [], None, []);
    if kind.Fw? {
      assert CommandPacket(WRITE_BD_ADDRESS, BdAddressParams(addr)) == Chain(kind, addr)[0];
      ObserveSend(c, WRITE_BD_ADDRESS, BdAddressParams(addr), a);
    } else {
      assert CommandPacket(WRITE_PCM_SETTINGS, PCM_SETTINGS) == Chain(kind, addr)[0];
      ObserveSend(c, WRITE_PCM_SETTINGS, PCM_SETTINGS, a);
    }
  }

  lemma {:induction false} RunReports(w: World, steps: seq<Step>)
    requires Runs(w, steps) && forall c <- w.configs :: ReportsOnce(c)
    ensures forall c <- Exec(w, steps).configs :: ReportsOnce(c)
    decreases |steps|
  {
    if steps != [] {
      StepReports(w, steps[0]);
      RunReports(Next(w, steps[0]), steps[1..]);
    }
  }

  /** The chain moves on by one command when the command it waits for completes. */
  lemma NextInChain(c: Config, a: Answer)
    requires FollowsChain(c) && c.waiting.Some?
    ensures FollowsChain(AfterReaction(c.(waiting := None), React(c.kind, c.waiting.value), a))
    ensures var c' := AfterReaction(c.(waiting := None), React(c.kind, c.waiting.value), a);
            c'.waiting.Some? ==> |c'.sent| == |c.sent| + 1
  {
    var n, chain := |c.sent|, Chain(c.kind, c.addr);
    assert c.sent == chain[..n] && Last(c.sent) == chain[n - 1];
    ReactFollows(c.kind, c.addr, n);
    hide React, CommandPacket, Chain;
    if n < |chain| {
      assert chain[..n] + [chain[n]] == chain[..n + 1];
    } else {
      assert chain[..n] == chain;
    }
  }

  lemma ReactFollows(kind: Kind, addr: Address, n: nat)
    requires 1 <= n <= |Chain(kind, addr)|
    ensures var chain := Chain(kind, addr);
            var r := React(kind, OpcodeOf(chain[n - 1]));
            if n == |chain| then r == Finish(true)
            else r.Send? && r.opcode == OpcodeOf(chain[n]) && CommandPacket(r.opcode, r.params) == chain[n]
  {
    if kind.Sco? {
      assert n == 1 || n == 2 || n == 3 || n == 4;
    }
  }

  /** A completion that bears no opcode of the chain ends the configuration in failure. */
  lemma ReactFails(kind: Kind, addr: Address, opcode: Opcode)
    requires forall packet <- Chain(kind, addr) :: OpcodeOf(packet) != opcode
    ensures React(kind, opcode) == Finish(false)
  {
    var chain := Chain(kind, addr);
    assert chain[0] in chain && (kind.Sco? ==> chain[1] in chain && chain[2] in chain && chain[3] in chain);
  }

  /** Only packets of its own chain are ever sent for a configuration. */
  predicate OnlyFromChain(c: Config) {
    forall packet <- c.sent :: packet in Chain(c.kind, c.addr)
  }

  lemma ReactStaysInChain(kind: Kind, addr: Address, opcode: Opcode)
    ensures var r := React(kind, opcode); r.Send? ==> CommandPacket(r.opcode, r.params) in Chain(kind, addr)
  {
    hide Chain, CommandPacket, React, OpcodeOf;
    var chain := Chain(kind, addr);
    if i :| 0 <= i < |chain| && OpcodeOf(chain[i]) == opcode {
      ReactFollows(kind, addr, i + 1);
    } else {
      ReactFails(kind, addr, opcode);
    }
  }

  lemma StepStaysInChain(w: World, s: Step)
    requires Enabled(w, s) && forall c <- w.configs :: OnlyFromChain(c)
    ensures forall c <- Next(w, s).configs :: OnlyFromChain(c)
  {
    hide ObserveAll, SendEvents, CompletionEvents, CommandPacket, React;
    match s
    case Start(kind, addr, a) =>
      ObserveStart(kind, addr, a);
    case Complete(i, evt, event, a) =>
      assert w.configs[i] in w.configs;
      var c, op := w.configs[i], ParseEvent(event).0;
      ReactStaysInChain(c.kind, c.addr, op);
      ObserveCompletion(c.(waiting := None), evt, op, a);
  }

  /** Any interleaving, any completions: nothing is sent for a configuration but packets of
      its own chain. */
  lemma {:induction false} NothingElseSent(w: World, steps: seq<Step>)
    requires Runs(w, steps) && forall c <- w.configs :: OnlyFromChain(c)
    ensures forall c <- Exec(w, steps).configs :: OnlyFromChain(c)
    decreases |steps|
  {
    if steps != [] {
      StepStaysInChain(w, steps[0]);
      NothingElseSent(Next(w, steps[0]), steps[1..]);
    }
  }

  lemma StepFollows(w: World, s: Step)
    requires Enabled(w, s) && Faithful(w, s) && forall c <- w.configs :: FollowsChain(c)
    ensures forall c <- Next(w, s).configs :: FollowsChain(c)
  {
    hide ObserveAll, SendEvents, CompletionEvents;
    match s
    case Start(kind, addr, a) =>
      ObserveStart(kind, addr, a);
      assert [Chain(kind, addr)[0]] == Chain(kind, addr)[..1];
    case Complete(i, evt, event, a) =>
      assert w.configs[i] in w.configs;
      NextInChain(w.configs[i], a);
      ObserveCompletion(w.configs[i].(waiting := None), evt, ParseEvent(event).0, a);
  }

  lemma {:induction false} RunFollows(w: World, steps: seq<Step>)
    requires Runs(w, steps) && FaithfulRuns(w, steps) && forall c <- w.configs :: FollowsChain(c)
    ensures forall c <- Exec(w, steps).configs :: FollowsChain(c)
    decreases |steps|
  {
    if steps != [] {
      StepFollows(w, steps[0]);
      RunFollows(Next(w, steps[0]), steps[1..]);
    }
  }

  /** Any interleaving in which completions bear the opcode waited for. */
  lemma ConfigurationProtocol(steps: seq<Step>)
    requires Runs(IDLE, steps) && FaithfulRuns(IDLE, steps)
    ensures forall c <- Exec(IDLE, steps).configs ::
              && c.sent <= Chain(c.kind, c.addr)
              && (c.waiting.Some? <==> c.reports == [])
              && (c.waiting.None? ==> |c.reports| == 1 && (c.reports[0] <==> c.sent == Chain(c.kind, c.addr)))
              && (c.waiting.Some? ==> c.sent != [] && c.waiting.value == OpcodeOf(Last(c.sent)))
  {
    RunFollows(IDLE, steps);
  }

  /** Any interleaving, any completions: every start is reported once, or still waits. */
  lemma OneReportPerStart(steps: seq<Step>)
    requires Runs(IDLE, steps)
    ensures forall c <- Exec(IDLE, steps).configs :: ReportsOnce(c)
  {
    RunReports(IDLE, steps);
  }

  /** Two steps that differ at most in an event, and there only outside the opcode. */
  predicate SameCommand(s: Step, t: Step) {
    || s == t
    || (&& s.Complete? && t.Complete? && t.(event := s.event) == s
        && |s.event| > EVT_CMD_CMPL_OPCODE + 2 && |t.event| > EVT_CMD_CMPL_OPCODE + 2
        && s.event[3..5] == t.event[3..5])
  }

  predicate SameCommands(a: seq<Step>, b: seq<Step>) {
    |a| == |b| && forall k | 0 <= k < |a| :: SameCommand(a[k], b[k])
  }

  lemma SameNext(w: World, s: Step, t: Step)
    requires Enabled(w, s) && SameCommand(s, t)
    ensures Enabled(w, t) && Next(w, t) == Next(w, s)
  {
    if s != t {
      var e, f := s.event, t.event;
      assert e[3..5] == [e[3], e[4]] && f[3..5] == [f[3], f[4]];
      assert ParseEvent(e).0 == ParseEvent(f).0;
    }
  }

  /** Bytes 3 and 4 of the events decide the outcome of a run; the others, the status byte
      that is parsed among them, do not. */
  lemma {:induction false} OnlyOpcodesMatter(w: World, a: seq<Step>, b: seq<Step>)
    requires Runs(w, a) && SameCommands(a, b)
    ensures Runs(w, b) && Exec(w, b) == Exec(w, a)
    decreases |a|
  {
    hide Next, Enabled, SameCommand;
    if a != [] {
      SameNext(w, a[0], b[0]);
      assert forall k | 0 <= k < |a| - 1 :: a[1..][k] == a[k + 1] && b[1..][k] == b[k + 1];
      OnlyOpcodesMatter(Next(w, a[0]), a[1..], b[1..]);
    }
  }

  /** The step, completed by the controller with the given status. */
  function WithStatus(s: Step, packets: byte, status: byte): Step {
    if s.Complete? && |s.event| > EVT_CMD_CMPL_OPCODE + 2
    then s.(event := CommandComplete(packets, ParseEvent(s.event).0, [status]))
    else s
  }

  lemma StatusOnly(s: Step, packets: byte, status: byte)
    ensures SameCommand(s, WithStatus(s, packets, status))
  {
    var t := WithStatus(s, packets, status);
    if s.Complete? && |s.event| > EVT_CMD_CMPL_OPCODE + 2 {
      EventRoundTrip(t.event, packets, ParseEvent(s.event).0, [status]);
      assert s.event[3..5] == [s.event[3], s.event[4]] && t.event[3..5] == [t.event[3], t.event[4]];
    }
  }

  /** Whatever status the controller returns, to every command if need be, the outcome is the
      same: a configuration that it rejected throughout succeeds like any other. */
  lemma StatusIgnored(w: World, steps: seq<Step>, packets: byte, status: byte)
    requires Runs(w, steps)
    ensures var same := seq(|steps|, k requires 0 <= k < |steps| => WithStatus(steps[k], packets, status));
            Runs(w, same) && Exec(w, same) == Exec(w, steps)
  {
    var same := seq(|steps|, k requires 0 <= k < |steps| => WithStatus(steps[k], packets, status));
    hide SameCommand, WithStatus, Runs, Exec;
    forall k | 0 <= k < |steps|
      ensures SameCommand(steps[k], same[k])
    {
      StatusOnly(steps[k], packets, status);
    }
    OnlyOpcodesMatter(w, steps, same);
  }
}
