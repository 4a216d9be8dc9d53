/** The private-command entry points of the two WLAN drivers, as far as they touch the error
    counter, the start/stop state and the messages to the supplicant. */
module DriverCmd {
  import opened Basics
  import opened ScanText
  import opened ErrorCounter

  // ----- command words

  function Lower(c: byte): byte {
    if 'A' as int <= c <= 'Z' as int then c + 32 else c
  }

  /** os_strcasecmp(a, b) == 0 */
  predicate SameText(a: Text, b: Text) {
    |a| == |b| && forall i | 0 <= i < |a| :: Lower(a[i]) == Lower(b[i])
  }

  /** os_strncasecmp(a, word, strlen(word)) == 0 */
  predicate HasPrefix(a: Text, word: Text) {
    |a| >= |word| && SameText(a[..|word|], word)
  }

  /** What a driver tells the supplicant. */
  datatype Message = Stopped | Started | Hanged

  // ----- nl80211

  datatype Nl80211Kind = Stop | Start | MacAddr | Reload | PowerMode | GetPower | BgScanStart | Private

  function KindOf(cmd: Text): Nl80211Kind {
    if SameText(cmd, Bytes("STOP")) then Stop
    else if SameText(cmd, Bytes("START")) then Start
    else if SameText(cmd, Bytes("MACADDR")) then MacAddr
    else if SameText(cmd, Bytes("RELOAD")) then Reload
    else if HasPrefix(cmd, Bytes("POWERMODE ")) then PowerMode
    else if HasPrefix(cmd, Bytes("GETPOWER")) then GetPower
    else if HasPrefix(cmd, Bytes("BGSCAN-START")) then BgScanStart
    else Private
  }

  /** What the system answers: the result of the request a command makes, and the power state
      that GETPOWER finds (-1 if none came back). */
  datatype Reply = Reply(ret: int, state: int)

  /** Only the power commands can fail; any private command but BGSCAN-START resets, even
      when its ioctl fails. */
  function Nl80211Effect(cmd: Text, r: Reply): Effect {
    match KindOf(cmd)
    case PowerMode => if r.ret < 0 then Fails else Resets
    case GetPower => if r.ret == 0 && r.state != -1 then Resets else Fails
    case Private => Resets
    case _ => Neutral
  }

  /** A RELOAD reports a hang of its own accord. */
  function Nl80211Message(cmd: Text, hangs: bool): seq<Message> {
    match KindOf(cmd)
    case Stop => [Stopped]
    case Start => [Started]
    case Reload => [Hanged]
    case _ => if hangs then [Hanged] else []
  }

  /** A command, and what the system answered. */
  type Call = (Text, Reply)

  function Effects(log: seq<Call>): seq<Effect> {
    seq(|log|, i requires 0 <= i < |log| => Nl80211Effect(log[i].0, log[i].1))
  }

  /** Everything that is said over a log. */
  function Said(limit: nat, log: seq<Call>): seq<Message> {
    if log == [] then []
    else Said(limit, DropLast(log)) + Nl80211Message(Last(log).0, Hangs(limit, Effects(log)))
  }

  lemma OneMoreCall(limit: nat, log: seq<Call>, call: Call)
    ensures Effects(log + [call]) == Effects(log) + [Nl80211Effect(call.0, call.1)]
    ensures Said(limit, log + [call])
         == Said(limit, log) + Nl80211Message(call.0, Hangs(limit, Effects(log + [call])))
  {
    assert DropLast(log + [call]) == log;
  }

  class Nl80211Driver {
    const limit: nat
    var errors: nat
    var messages: seq<Message>
    ghost var history: seq<Effect>
    ghost var log: seq<Call>  // every command so far

    ghost predicate Valid()
      reads this
    {
      Counts() && history == Effects(log) && messages == Said(limit, log)
    }

    ghost predicate Counts()
      reads this
    {
      errors == Errors(limit, history)
    }

    constructor (limit: nat)
      ensures Valid() && this.limit == limit && log == []
    {
      this.limit, errors, messages, history, log := limit, 0, [], [], [];
    }

    /** wpa_driver_send_hang_msg: one more failure, and a hang at every (N+1)th in a row. */
    method SendHangMsg()
      requires Counts()
      modifies `errors, `messages, `history
      ensures Counts() && errors <= limit && history == old(history) + [Fails]
      ensures messages == old(messages) + if StreakComplete(limit, history) then [Hanged] else []
    {
      history := history + [Fails];
      CounterMeaning(limit, history);
      assert DropLast(history) == old(history);
      errors := errors + 1;
      if errors > limit {
        errors := 0;
        messages := messages + [Hanged];
      }
    }

    /** drv_errors = 0 */
    method ResetErrors()
      requires Counts()
      modifies `errors, `history
      ensures Counts() && errors == 0 && history == old(history) + [Resets]
    {
      history := history + [Resets];
      assert DropLast(history) == old(history);
      errors := 0;
    }

    method Command(cmd: Text, reply: Reply)
      requires Valid()
      modifies this
      ensures Valid() && errors <= limit && log == old(log) + [(cmd, reply)]
      ensures history == old(history) + [Nl80211Effect(cmd, reply)]
      ensures messages == old(messages) + Nl80211Message(cmd, Hangs(limit, history))
      ensures Hangs(limit, history) <==>
              Nl80211Effect(cmd, reply) == Fails && StreakComplete(limit, history)
    {
      hide SameText, HasPrefix, Bytes, Errors, Hangs, StreakComplete, Said, Effects;
      CounterMeaning(limit, history);
      OneMoreCall(limit, log, (cmd, reply));
      log := log + [(cmd, reply)];
      ghost var before := history;
      if SameText(cmd, Bytes("STOP")) {
        messages := messages + [Stopped];
      } else if SameText(cmd, Bytes("START")) {
        messages := messages + [Started];
      } else if SameText(cmd, Bytes("MACADDR")) {
      } else if SameText(cmd, Bytes("RELOAD")) {
        messages := messages + [Hanged];
      } else if HasPrefix(cmd, Bytes("POWERMODE ")) {
        if reply.ret < 0 {
          SendHangMsg();
        } else {
          ResetErrors();
        }
      } else if HasPrefix(cmd, Bytes("GETPOWER")) {
        if reply.ret == 0 && reply.state != -1 {
          ResetErrors();
        } else {
          SendHangMsg();
        }
      } else if HasPrefix(cmd, Bytes("BGSCAN-START")) {
      } else {
        // whatever the ioctl returns
        ResetErrors();
      }
      if history == before {
        history := before + [Neutral];
        Unmoved(limit, before);
      }
      CounterMeaning(limit, history);
    }
  }

  // ----- wireless extensions

  const COUNTRY_ETSI: int := 13
  const COUNTRY_MKK1: int := 14

  function CountryCode(channels: int): Text {
    if channels == COUNTRY_ETSI then Bytes("EU") else if channels == COUNTRY_MKK1 then Bytes("JP") else Bytes("US")
  }

  /** What the supplicant and the system answer: whether a scan may start, and the result of
      the final ioctl. */
  datatype WextReply = WextReply(mayScan: bool, ret: int)

  /** A command that reached the final ioctl, and whether that succeeded. */
  datatype Sent = Sent(cmd: Text, ok: bool)

  /** Two commands are rewritten in place before they are sent. */
  function Rewritten(cmd: Text): Text {
    if SameText(cmd, Bytes("RSSI-APPROX")) then Bytes("RSSI")
    else if HasPrefix(cmd, Bytes("SCAN-CHANNELS")) then Bytes("COUNTRY ") + CountryCode(Atoi(cmd[13..]))
    else cmd
  }

  /** Commands that are answered before the final ioctl. */
  predicate AnsweredEarly(started: bool, cmd: Text, mayScan: bool) {
    || (!started && !SameText(cmd, Bytes("START")))
    || SameText(cmd, Bytes("RELOAD"))
    || HasPrefix(cmd, Bytes("BGSCAN-START"))
    || SameText(cmd, Bytes("BGSCAN-STOP"))
    || (HasPrefix(cmd, Bytes("CSCAN")) && !mayScan)
  }

  function SentEffect(s: Sent): Effect {
    if s.ok then Resets else Fails
  }

  function SentEffects(log: seq<Sent>): seq<Effect> {
    seq(|log|, i requires 0 <= i < |log| => SentEffect(log[i]))
  }

  /** The driver is started if the last START or STOP to succeed was a START. */
  function StartedAfter(initially: bool, log: seq<Sent>): bool {
    if log == [] then initially
    else if Last(log).ok && SameText(Last(log).cmd, Bytes("START")) then true
    else if Last(log).ok && SameText(Last(log).cmd, Bytes("STOP")) then false
    else StartedAfter(initially, DropLast(log))
  }

  /** Nothing but START was ever sent to a stopped driver. */
  predicate StartFirst(initially: bool, log: seq<Sent>) {
    forall i | 0 <= i < |log| :: StartedAfter(initially, log[..i]) || SameText(log[i].cmd, Bytes("START"))
  }

  lemma OneMoreSent(initially: bool, log: seq<Sent>, x: Sent)
    ensures SentEffects(log + [x]) == SentEffects(log) + [SentEffect(x)]
    ensures DropLast(SentEffects(log + [x])) == SentEffects(log)
    ensures StartFirst(initially, log) && (StartedAfter(initially, log) || SameText(x.cmd, Bytes("START")))
            ==> StartFirst(initially, log + [x])
    ensures StartedAfter(initially, log + [x]) ==
            if x.ok && SameText(x.cmd, Bytes("START")) then true
            else if x.ok && SameText(x.cmd, Bytes("STOP")) then false
            else StartedAfter(initially, log)
  {
    var more := log + [x];
    assert DropLast(more) == log;
    assert more[..|log|] == log;
    assert forall i | 0 <= i < |log| :: more[..i] == log[..i];
  }

  /** The words a command is tested for. */
  datatype Word = StartWord | StopWord | ReloadWord | RssiWord | ChannelsWord | BgStartWord | BgStopWord | CscanWord

  predicate Matches(cmd: Text, w: Word) {
    match w
    case StartWord => SameText(cmd, Bytes("START"))
    case StopWord => SameText(cmd, Bytes("STOP"))
    case ReloadWord => SameText(cmd, Bytes("RELOAD"))
    case RssiWord => SameText(cmd, Bytes("RSSI-APPROX"))
    case ChannelsWord => HasPrefix(cmd, Bytes("SCAN-CHANNELS"))
    case BgStartWord => HasPrefix(cmd, Bytes("BGSCAN-START"))
    case BgStopWord => SameText(cmd, Bytes("BGSCAN-STOP"))
    case CscanWord => HasPrefix(cmd, Bytes("CSCAN"))
  }

  /** What tells the words apart: the first letter and the length. */
  lemma WordShape(cmd: Text, w: Word)
    requires Matches(cmd, w)
    ensures match w
            case StartWord => |cmd| == 5 && Lower(cmd[0]) == 's' as int
            case StopWord => |cmd| == 4 && Lower(cmd[0]) == 's' as int
            case ReloadWord => |cmd| == 6 && Lower(cmd[0]) == 'r' as int
            case RssiWord => |cmd| == 11 && Lower(cmd[0]) == 'r' as int
            case ChannelsWord => |cmd| >= 13 && Lower(cmd[0]) == 's' as int
            case BgStartWord => |cmd| >= 12 && Lower(cmd[0]) == 'b' as int
            case BgStopWord => |cmd| == 11 && Lower(cmd[0]) == 'b' as int
            case CscanWord => |cmd| >= 5 && Lower(cmd[0]) == 'c' as int
  {
  }

  /** No command is two of the words, so the order of the tests does not matter. */
  lemma WordsApart(cmd: Text)
    ensures forall v, w :: Matches(cmd, v) && Matches(cmd, w) ==> v == w
  {
    hide Matches;
    forall v, w | Matches(cmd, v) && Matches(cmd, w)
      ensures v == w
    {
      WordShape(cmd, v);
      WordShape(cmd, w);
    }
  }

  /** Being rewritten makes no command a CSCAN, and keeps none from being one. */
  lemma StillCscan(cmd: Text)
    ensures HasPrefix(Rewritten(cmd), Bytes("CSCAN")) <==> HasPrefix(cmd, Bytes("CSCAN"))
  {
    if SameText(cmd, Bytes("RSSI-APPROX")) {
      WordShape(cmd, RssiWord);
      assert |Rewritten(cmd)| == 4;
    } else if HasPrefix(cmd, Bytes("SCAN-CHANNELS")) {
      WordShape(cmd, ChannelsWord);
      assert Rewritten(cmd)[1] == 'O' as int && Bytes("CSCAN")[1] == 'S' as int;
    }
  }

  /** The same, for the tests one by one. */
  lemma TestsApart(cmd: Text)
    ensures var rewritten := SameText(cmd, Bytes("RSSI-APPROX")) || HasPrefix(cmd, Bytes("SCAN-CHANNELS"));
            && (SameText(cmd, Bytes("START")) || SameText(cmd, Bytes("STOP")) || rewritten ==>
                  !SameText(cmd, Bytes("RELOAD")) && !HasPrefix(cmd, Bytes("BGSCAN-START"))
                  && !SameText(cmd, Bytes("BGSCAN-STOP")))
            && (SameText(cmd, Bytes("START")) ==> !rewritten && !SameText(cmd, Bytes("STOP")))
            && (SameText(cmd, Bytes("RELOAD")) ==>
                  !HasPrefix(cmd, Bytes("BGSCAN-START")) && !SameText(cmd, Bytes("BGSCAN-STOP")))
            && (HasPrefix(cmd, Bytes("BGSCAN-START")) ==> !SameText(cmd, Bytes("BGSCAN-STOP")))
            && (HasPrefix(cmd, Bytes("SCAN-CHANNELS")) ==> |cmd| >= 13)
            && (HasPrefix(Rewritten(cmd), Bytes("CSCAN")) <==> HasPrefix(cmd, Bytes("CSCAN")))
  {
    hide SameText, HasPrefix, Bytes;
    WordsApart(cmd);
    StillCscan(cmd);
    var words := [Matches(cmd, StartWord), Matches(cmd, StopWord), Matches(cmd, ReloadWord), Matches(cmd, RssiWord),
                  Matches(cmd, ChannelsWord), Matches(cmd, BgStartWord), Matches(cmd, BgStopWord)];
    if Matches(cmd, ChannelsWord) {
      WordShape(cmd, ChannelsWord);
    }
  }

  /** What one more sent command does to the counter. */
  lemma CountSent(limit: nat, log: seq<Sent>, x: Sent)
    ensures (Errors(limit, SentEffects(log + [x])), Hangs(limit, SentEffects(log + [x])))
         == Count(limit, Errors(limit, SentEffects(log)), SentEffect(x))
    ensures Errors(limit, SentEffects(log + [x])) <= limit
    ensures Hangs(limit, SentEffects(log + [x])) <==>
            !x.ok && StreakComplete(limit, SentEffects(log + [x]))
  {
    OneMoreSent(true, log, x);
    CounterMeaning(limit, SentEffects(log + [x]));
  }

  class WextDriver {
    const limit: nat
    const initially: bool
    var errors: nat
    var started: bool
    var bgscanEnabled: bool
    var messages: seq<Message>
    var log: seq<Sent>

    ghost predicate Valid()
      reads this
    {
      && errors == Errors(limit, SentEffects(log))
      && started == StartedAfter(initially, log)
      && StartFirst(initially, log)
    }

    constructor (limit: nat, initially: bool)
      ensures Valid() && this.limit == limit && started == this.initially == initially && !bgscanEnabled
      ensures log == [] && messages == []
    {
      this.limit, this.initially := limit, initially;
      errors, started, bgscanEnabled, messages, log := 0, initially, false, [], [];
    }

    method Command(cmd0: Text, reply: WextReply) returns (ret: int)
      requires Valid()
      modifies this
      ensures Valid() && errors <= limit
      ensures var early := AnsweredEarly(old(started), cmd0, reply.mayScan);
              && log == old(log) + (if early then [] else [Sent(Rewritten(cmd0), reply.ret >= 0)])
              && messages == old(messages) +
                   (if !early && Hangs(limit, SentEffects(log)) then [Hanged]
                    else if (old(started) && SameText(cmd0, Bytes("RELOAD"))) then [Hanged] else [])
              && (early ==> errors == old(errors) && started == old(started))
              && (!early ==> (Hangs(limit, SentEffects(log)) <==>
                              reply.ret < 0 && StreakComplete(limit, SentEffects(log))))
      ensures !old(started) && !SameText(cmd0, Bytes("START")) ==> ret == -1 && log == old(log)
      ensures old(started) ==>
                (log == old(log) <==>
                 SameText(cmd0, Bytes("RELOAD")) || HasPrefix(cmd0, Bytes("BGSCAN-START"))
                 || SameText(cmd0, Bytes("BGSCAN-STOP")) || (HasPrefix(cmd0, Bytes("CSCAN")) && !reply.mayScan))
      ensures bgscanEnabled ==
              if old(started) && HasPrefix(cmd0, Bytes("BGSCAN-START")) then true
              else if old(started) && SameText(cmd0, Bytes("BGSCAN-STOP")) then false
              else old(bgscanEnabled)
    {
      hide Errors, Hangs, StreakComplete, StartedAfter, StartFirst, SentEffects;
      hide SameText, HasPrefix, Bytes, Atoi, CountryCode;
      Bounded(limit, SentEffects(log));
      TestsApart(cmd0);
      if !started && !SameText(cmd0, Bytes("START")) {
        return -1;
      }
      var cmd := cmd0;
      if SameText(cmd, Bytes("RSSI-APPROX")) {
        cmd := Bytes("RSSI");
      } else if HasPrefix(cmd, Bytes("SCAN-CHANNELS")) {
        cmd := Bytes("COUNTRY ") + CountryCode(Atoi(cmd[13..]));
      } else if SameText(cmd, Bytes("STOP")) {
        // the interface goes down whatever the ioctl will return
      } else if SameText(cmd, Bytes("RELOAD")) {
        messages := messages + [Hanged];
        return 0;
      } else if HasPrefix(cmd, Bytes("BGSCAN-START")) {
        bgscanEnabled := true;
        return reply.ret;
      } else if SameText(cmd, Bytes("BGSCAN-STOP")) {
        bgscanEnabled := false;
        return 0;
      }
      if HasPrefix(cmd, Bytes("CSCAN")) && !reply.mayScan {
        return 0;
      }
      ret := reply.ret;
      OneMoreSent(initially, log, Sent(cmd, ret >= 0));
      CountSent(limit, log, Sent(cmd, ret >= 0));
      log := log + [Sent(cmd, ret >= 0)];
      if ret < 0 {
        errors := errors + 1;
        if errors > limit {
          errors := 0;
          messages := messages + [Hanged];
        }
      } else {
        errors := 0;
        ret := 0;
        if SameText(cmd, Bytes("START")) {
          started := true;
        } else if SameText(cmd, Bytes("STOP")) {
          started := false;
        }
      }
    }
  }
}
