/** What whole runs of driver commands lead to, in terms of the commands and the answers alone. */
module DriverRuns {
  import opened Basics
  import opened ScanText
  import opened ScanReadBack
  import opened ErrorCounter
  import opened DriverCmd

  // ----- how a command word may be spelled

  /** Letter case does not matter, and nothing else is let pass. */
  lemma CaseIgnored(a: Text, b: Text)
    ensures SameText(a, b) <==>
            |a| == |b| && forall i | 0 <= i < |a| ::
              || a[i] == b[i]
              || (65 <= a[i] <= 90 && b[i] == a[i] + 32)
              || (65 <= b[i] <= 90 && a[i] == b[i] + 32)
  {
  }

  /** A text has a prefix iff it begins with some spelling of it. */
  lemma PrefixSpelled(a: Text, word: Text)
    ensures HasPrefix(a, word) <==> exists spelled, rest :: a == spelled + rest && SameText(spelled, word)
  {
    if HasPrefix(a, word) {
      assert a == a[..|word|] + a[|word|..];
    }
    if spelled, rest :| a == spelled + rest && SameText(spelled, word) {
      assert a[..|word|] == spelled;
    }
  }

  // ----- nl80211: which commands are which

  /** The words that the driver tests for. */
  predicate Tested(cmd: Text, k: Nl80211Kind) {
    match k
    case Stop => SameText(cmd, Bytes("STOP"))
    case Start => SameText(cmd, Bytes("START"))
    case MacAddr => SameText(cmd, Bytes("MACADDR"))
    case Reload => SameText(cmd, Bytes("RELOAD"))
    case PowerMode => HasPrefix(cmd, Bytes("POWERMODE "))
    case GetPower => HasPrefix(cmd, Bytes("GETPOWER"))
    case BgScanStart => HasPrefix(cmd, Bytes("BGSCAN-START"))
    case Private => false
  }

  /** A command that is none of the words is private. */
  predicate IsKind(cmd: Text, k: Nl80211Kind) {
    if k.Private? then forall w :: !Tested(cmd, w) else Tested(cmd, k)
  }

  lemma WordShape(cmd: Text, k: Nl80211Kind)
    requires Tested(cmd, k)
    ensures match k
            case Stop => |cmd| == 4 && Lower(cmd[0]) == 's' as int
            case Start => |cmd| == 5 && Lower(cmd[0]) == 's' as int
            case MacAddr => |cmd| == 7 && Lower(cmd[0]) == 'm' as int
            case Reload => |cmd| == 6 && Lower(cmd[0]) == 'r' as int
            case PowerMode => |cmd| >= 10 && Lower(cmd[0]) == 'p' as int
            case GetPower => |cmd| >= 8 && Lower(cmd[0]) == 'g' as int
            case BgScanStart => |cmd| >= 12 && Lower(cmd[0]) == 'b' as int
            case Private => true
  {
  }

  /** No command is of two kinds, so the order of the tests does not matter. */
  lemma KindsApart(cmd: Text, k: Nl80211Kind)
    ensures KindOf(cmd) == k <==> IsKind(cmd, k)
  {
    KindTested(cmd);
    if IsKind(cmd, k) && KindOf(cmd) != k && !k.Private? && !KindOf(cmd).Private? {
      WordShape(cmd, k);
      hide Tested;
      WordShape(cmd, KindOf(cmd));
    }
  }

  /** The same, test by test. */
  lemma KindTests(cmd: Text)
    ensures KindOf(cmd) == Stop <==> SameText(cmd, Bytes("STOP"))
    ensures KindOf(cmd) == Start <==> SameText(cmd, Bytes("START"))
    ensures KindOf(cmd) == MacAddr <==> SameText(cmd, Bytes("MACADDR"))
    ensures KindOf(cmd) == Reload <==> SameText(cmd, Bytes("RELOAD"))
    ensures KindOf(cmd) == PowerMode <==> HasPrefix(cmd, Bytes("POWERMODE "))
    ensures KindOf(cmd) == GetPower <==> HasPrefix(cmd, Bytes("GETPOWER"))
    ensures KindOf(cmd) == BgScanStart <==> HasPrefix(cmd, Bytes("BGSCAN-START"))
  {
    hide KindOf, SameText, HasPrefix, Bytes;
    forall k
      ensures KindOf(cmd) == k <==> IsKind(cmd, k)
    {
      KindsApart(cmd, k);
    }
    assert IsKind(cmd, Stop) <==> KindOf(cmd) == Stop;
    assert IsKind(cmd, Start) <==> KindOf(cmd) == Start;
    assert IsKind(cmd, MacAddr) <==> KindOf(cmd) == MacAddr;
    assert IsKind(cmd, Reload) <==> KindOf(cmd) == Reload;
    assert IsKind(cmd, PowerMode) <==> KindOf(cmd) == PowerMode;
    assert IsKind(cmd, GetPower) <==> KindOf(cmd) == GetPower;
    assert IsKind(cmd, BgScanStart) <==> KindOf(cmd) == BgScanStart;
  }

  lemma KindTested(cmd: Text)
    ensures IsKind(cmd, KindOf(cmd))
  {
    hide SameText, HasPrefix, Bytes;
  }

  // ----- nl80211: what counts as a failure

  /** A POWERMODE that is answered negatively, or a GETPOWER that brings no state back. */
  predicate PowerFailed(c: Call) {
    || (HasPrefix(c.0, Bytes("POWERMODE ")) && c.1.ret < 0)
    || (HasPrefix(c.0, Bytes("GETPOWER")) && (c.1.ret != 0 || c.1.state == -1))
  }

  /** The commands that the counter does not notice. */
  predicate Unnoticed(cmd: Text) {
    || SameText(cmd, Bytes("STOP")) || SameText(cmd, Bytes("START")) || SameText(cmd, Bytes("MACADDR"))
    || SameText(cmd, Bytes("RELOAD")) || HasPrefix(cmd, Bytes("BGSCAN-START"))
  }

  lemma EffectMeans(c: Call)
    ensures Nl80211Effect(c.0, c.1) == if PowerFailed(c) then Fails else if Unnoticed(c.0) then Neutral else Resets
  {
    hide SameText, HasPrefix, Bytes, KindOf;
    KindTests(c.0);
  }

  function Times(m: Message, said: seq<Message>): nat {
    if said == [] then 0 else Times(m, DropLast(said)) + if Last(said) == m then 1 else 0
  }

  lemma TimesOneMore(m: Message, said: seq<Message>, more: seq<Message>)
    requires |more| <= 1
    ensures Times(m, said + more) == Times(m, said) + if more == [m] then 1 else 0
  {
    if more == [] {
      assert said + more == said;
    } else {
      assert DropLast(said + more) == said;
    }
  }

  /** How many calls of a log are of a kind, and how many are failures of a power command. */
  function Reloads(log: seq<Call>): nat {
    if log == [] then 0 else Reloads(DropLast(log)) + if SameText(Last(log).0, Bytes("RELOAD")) then 1 else 0
  }

  function PowerFailures(log: seq<Call>): nat {
    if log == [] then 0 else PowerFailures(DropLast(log)) + if PowerFailed(Last(log)) then 1 else 0
  }

  lemma {:induction false} FailuresAreOfPower(log: seq<Call>)
    ensures Failures(Effects(log)) == PowerFailures(log)
  {
    hide Nl80211Effect, PowerFailed;
    if log != [] {
      FailuresAreOfPower(DropLast(log));
      EffectMeans(Last(log));
      assert DropLast(Effects(log)) == Effects(DropLast(log));
    }
  }

  /** Every HANGED is a report of the counter or answers a RELOAD. */
  lemma {:induction false} HangedAccounted(limit: nat, log: seq<Call>)
    ensures Times(Hanged, Said(limit, log)) == Reports(limit, Effects(log)) + Reloads(log)
  {
    hide SameText, HasPrefix, Bytes, KindOf;
    if log != [] {
      var most, c := DropLast(log), Last(log);
      HangedAccounted(limit, most);
      assert DropLast(Effects(log)) == Effects(most);
      KindsApart(c.0, Reload);
      TimesOneMore(Hanged, Said(limit, most), Nl80211Message(c.0, Hangs(limit, Effects(log))));
    }
  }

  // ----- nl80211: laws of whole runs

  /** As long as no POWERMODE is answered negatively and every GETPOWER brings a state back,
      the only hangs reported are those that a RELOAD asks for. */
  lemma NoFailuresNoHangs(limit: nat, log: seq<Call>)
    requires forall c <- log :: HasPrefix(c.0, Bytes("POWERMODE ")) ==> c.1.ret >= 0
    requires forall c <- log :: HasPrefix(c.0, Bytes("GETPOWER")) ==> c.1.ret == 0 && c.1.state != -1
    ensures Times(Hanged, Said(limit, log)) == Reloads(log)
  {
    NoneFailed(log);
    HangedAccounted(limit, log);
    FailuresAreOfPower(log);
    NoReports(limit, Effects(log));
  }

  lemma {:induction false} NoneFailed(log: seq<Call>)
    requires forall c <- log :: !PowerFailed(c)
    ensures PowerFailures(log) == 0
  {
    hide PowerFailed;
    if log != [] {
      assert forall c <- DropLast(log) :: c in log;
      NoneFailed(DropLast(log));
      assert Last(log) in log;
    }
  }

  lemma EffectsAppend(a: seq<Call>, b: seq<Call>)
    ensures Effects(a + b) == Effects(a) + Effects(b)
  {
  }

  lemma {:induction false} ReloadsAppend(a: seq<Call>, b: seq<Call>)
    ensures Reloads(a + b) == Reloads(a) + Reloads(b)
  {
    hide SameText, Bytes;
    if b == [] {
      assert a + b == a;
    } else {
      ReloadsAppend(a, DropLast(b));
      assert DropLast(a + b) == a + DropLast(b);
    }
  }

  /** k(N+1) failing power commands, with nothing between them but commands that the counter
      does not notice, report exactly k hangs, whatever came before, next to those that a
      RELOAD asks for; and the count is then what it was. */
  lemma FailuresReport(limit: nat, before: seq<Call>, stretch: seq<Call>, k: nat)
    requires forall c <- stretch :: PowerFailed(c) || Unnoticed(c.0)
    requires PowerFailures(stretch) == k * (limit + 1)
    ensures Times(Hanged, Said(limit, before + stretch)) == Times(Hanged, Said(limit, before)) + k + Reloads(stretch)
    ensures Errors(limit, Effects(before + stretch)) == Errors(limit, Effects(before))
  {
    hide PowerFailed, Unnoticed, Nl80211Effect;
    HangedAccounted(limit, before);
    HangedAccounted(limit, before + stretch);
    EffectsAppend(before, stretch);
    ReloadsAppend(before, stretch);
    FailuresAreOfPower(stretch);
    forall i | 0 <= i < |stretch|
      ensures Effects(stretch)[i] != Resets
    {
      assert stretch[i] in stretch;
      EffectMeans(stretch[i]);
    }
    StretchReports(limit, Effects(before), Effects(stretch), k);
  }

  /** A private command other than BGSCAN-START sets the count to zero whatever its ioctl
      answers; so does a POWERMODE that is not answered negatively and a GETPOWER that
      brings a state back; the remaining words leave it alone. */
  lemma CountAfter(limit: nat, log: seq<Call>, c: Call)
    ensures var before, after := Errors(limit, Effects(log)), Errors(limit, Effects(log + [c]));
            if Unnoticed(c.0) then after == before
            else if PowerFailed(c) then after == if before == limit then 0 else before + 1
            else after == 0
    ensures !(Unnoticed(c.0) && PowerFailed(c))
  {
    hide Nl80211Effect, PowerFailed, Unnoticed;
    EffectMeans(c);
    OneMoreCall(limit, log, c);
    assert DropLast(Effects(log) + [Nl80211Effect(c.0, c.1)]) == Effects(log);
    Bounded(limit, Effects(log));
    NeverBoth(c);
  }

  lemma NeverBoth(c: Call)
    ensures !(Unnoticed(c.0) && PowerFailed(c))
  {
    hide SameText, HasPrefix, Bytes, KindOf;
    KindTests(c.0);
  }

  /** STOP and START are answered STOPPED and STARTED, and nothing else is. */
  lemma AnswersOfStopAndStart(limit: nat, log: seq<Call>, c: Call)
    ensures Times(Stopped, Said(limit, log + [c])) ==
            Times(Stopped, Said(limit, log)) + if SameText(c.0, Bytes("STOP")) then 1 else 0
    ensures Times(Started, Said(limit, log + [c])) ==
            Times(Started, Said(limit, log)) + if SameText(c.0, Bytes("START")) then 1 else 0
  {
    hide SameText, HasPrefix, Bytes, KindOf;
    KindsApart(c.0, Stop);
    KindsApart(c.0, Start);
    OneMoreCall(limit, log, c);
    var more := Nl80211Message(c.0, Hangs(limit, Effects(log + [c])));
    TimesOneMore(Stopped, Said(limit, log), more);
    TimesOneMore(Started, Said(limit, log), more);
  }

  // ----- wireless extensions

  /** Over a log in which every ioctl succeeds no hang is reported; k(N+1) failures with no
      success between them report exactly k, whatever came before; and a success sets the
      count to zero. */
  lemma SentCounts(limit: nat, before: seq<Sent>, stretch: seq<Sent>, k: nat)
    ensures (forall s <- before :: s.ok) ==> Reports(limit, SentEffects(before)) == 0
    ensures (forall s <- stretch :: !s.ok) && |stretch| == k * (limit + 1) ==>
              Reports(limit, SentEffects(before + stretch)) == Reports(limit, SentEffects(before)) + k
    ensures before != [] && Last(before).ok ==> Errors(limit, SentEffects(before)) == 0
  {
    var h, e := SentEffects(before), SentEffects(stretch);
    if forall s <- before :: s.ok {
      assert forall i | 0 <= i < |h| :: before[i] in before;
      AllResets(h);
      NoReports(limit, h);
    }
    if (forall s <- stretch :: !s.ok) && |stretch| == k * (limit + 1) {
      assert forall i | 0 <= i < |e| :: stretch[i] in stretch;
      AllFail(e);
      assert SentEffects(before + stretch) == h + e;
      StretchReports(limit, h, e, k);
    }
  }

  lemma {:induction false} AllResets(h: seq<Effect>)
    requires forall x <- h :: x == Resets
    ensures Failures(h) == 0
  {
    if h != [] {
      assert Last(h) in h && forall x <- DropLast(h) :: x in h;
      AllResets(DropLast(h));
    }
  }

  lemma {:induction false} AllFail(h: seq<Effect>)
    requires forall x <- h :: x == Fails
    ensures Failures(h) == |h|
  {
    if h != [] {
      assert Last(h) in h && forall x <- DropLast(h) :: x in h;
      AllFail(DropLast(h));
    }
  }

  predicate Done(s: Sent, word: string) {
    s.ok && SameText(s.cmd, Bytes(word))
  }

  /** The driver is started iff some START succeeded and no STOP has since, or it was started
      at first and no STOP has succeeded at all. */
  lemma {:induction false} StartedIff(initially: bool, log: seq<Sent>)
    ensures StartedAfter(initially, log) <==>
            || (exists i | 0 <= i < |log| :: Done(log[i], "START") && forall j | i < j < |log| :: !Done(log[j], "STOP"))
            || (initially && forall j | 0 <= j < |log| :: !Done(log[j], "STOP"))
  {
    hide SameText, Bytes;
    if log != [] {
      var n, most := |log| - 1, DropLast(log);
      StartedIff(initially, most);
      StartIsNotStop(log[n].cmd);
      assert forall i | 0 <= i < n :: most[i] == log[i];
    }
  }

  lemma StartIsNotStop(cmd: Text)
    ensures !(SameText(cmd, Bytes("START")) && SameText(cmd, Bytes("STOP")))
  {
  }

  /** SCAN-CHANNELS with a number of channels becomes a COUNTRY command: 13 channels are
      Europe's, 14 Japan's, any other number America's. RSSI-APPROX becomes RSSI. */
  lemma RewrittenMeans(word: Text, blanks: Text, channels: int, after: Text)
    requires (forall c <- blanks :: Blank(c)) && EndsNumber(after)
    ensures SameText(word, Bytes("SCAN-CHANNELS")) ==>
              Rewritten(word + (blanks + Decimal(channels) + after)) ==
              if channels == 13 then Bytes("COUNTRY EU")
              else if channels == 14 then Bytes("COUNTRY JP")
              else Bytes("COUNTRY US")
    ensures SameText(word, Bytes("RSSI-APPROX")) ==> Rewritten(word) == Bytes("RSSI")
  {
    hide Decimal, Atoi;
    AtoiReadsBack(blanks, channels, after);
    var cmd := word + (blanks + Decimal(channels) + after);
    if SameText(word, Bytes("SCAN-CHANNELS")) {
      assert cmd[..13] == word && cmd[13..] == blanks + Decimal(channels) + after;
      WordsApart(cmd);
      assert Matches(cmd, ChannelsWord);
      assert !Matches(cmd, RssiWord);
      Countries();
    }
  }

  lemma Countries()
    ensures Bytes("COUNTRY ") + Bytes("EU") == Bytes("COUNTRY EU")
    ensures Bytes("COUNTRY ") + Bytes("JP") == Bytes("COUNTRY JP")
    ensures Bytes("COUNTRY ") + Bytes("US") == Bytes("COUNTRY US")
  {
  }
}
