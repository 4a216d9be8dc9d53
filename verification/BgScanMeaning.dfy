/** What a background scan sends for what its caller wrote and what is configured, in the
    bytes and numbers of the protocol. */
module BgScanMeaning {
  import opened Basics
  import opened ScanText
  import opened ScanReadBack
  import opened ScanCodec
  import opened BgScan

  /** What a caller can ask for. */
  datatype Wish =
    | ForSsid(name: seq<byte>)
    | ForRssi(level: int)
    | ForInterval(seconds: int)
    | ForRepeat(count: int)

  function KeyText(w: Wish): Text {
    match w
    case ForSsid(_) => Bytes("SSID=")
    case ForRssi(_) => Bytes("RSSI=")
    case ForInterval(_) => Bytes("INTERVAL=")
    case ForRepeat(_) => Bytes("REPEAT=")
  }

  function ValueText(w: Wish): Text {
    match w
    case ForSsid(name) => name
    case ForRssi(v) => Decimal(v)
    case ForInterval(v) => Decimal(v)
    case ForRepeat(v) => Decimal(v)
  }

  /** How a wish is written. */
  function Written(w: Wish): Text {
    KeyText(w) + ValueText(w)
  }

  /** What is to be sent for it: numbers are cut to one byte, an interval to two. */
  function Meaning(w: Wish): Section {
    match w
    case ForSsid(name) => Ssid(name)
    case ForRssi(v) => Rssi(v % 256)
    case ForInterval(v) => Interval(v % 65536)
    case ForRepeat(v) => Repeat(v % 256)
  }

  // ----- one token

  lemma Spellings()
    ensures Bytes("SSID=") == [83, 83, 73, 68, 61]
    ensures Bytes("RSSI=") == [82, 83, 83, 73, 61]
    ensures Bytes("INTERVAL=") == [73, 78, 84, 69, 82, 86, 65, 76, 61]
    ensures Bytes("REPEAT=") == [82, 69, 80, 69, 65, 84, 61]
  {
  }

  /** An earlier wish is one whose key is looked for before. */
  function Rank(w: Wish): nat {
    match w
    case ForSsid(_) => 0
    case ForRssi(_) => 1
    case ForInterval(_) => 2
    case ForRepeat(_) => 3
  }

  const EQUALS: byte := 61

  /** No key is the end of another. */
  lemma KeysApart(w: Wish, other: Wish)
    requires Rank(w) != Rank(other)
    ensures !EndsAt(KeyText(w), KeyText(other), |KeyText(w)| - 1)
  {
    hide Bytes;
    Spellings();
    var k, o := KeyText(w), KeyText(other);
    if |o| <= |k| {
      assert k[|k| - |o|..|k|][0] == k[|k| - |o|] && k[|k| - |o|..|k|][1] == k[|k| - |o| + 1];
    }
  }

  lemma KeyShape(w: Wish)
    ensures 5 <= |KeyText(w)| && Last(KeyText(w)) == EQUALS
    ensures forall i | 0 <= i < |KeyText(w)| - 1 :: KeyText(w)[i] != EQUALS
    ensures Rank(w) < 2 ==> |KeyText(w)| == 5
  {
    hide Bytes;
    Spellings();
  }

  /** In a number token only the key has an equals sign. */
  lemma OneEqualsSign(w: Wish, i: nat)
    requires !w.ForSsid? && i < |Written(w)|
    ensures Written(w)[i] == EQUALS <==> i == |KeyText(w)| - 1
  {
    hide KeyText, Decimal;
    KeyShape(w);
    var k := |KeyText(w)|;
    if i < k {
      assert Written(w)[i] == KeyText(w)[i];
    } else {
      assert Written(w)[i] == ValueText(w)[i - k] && ValueText(w)[i - k] in ValueText(w);
    }
  }

  /** No other key ends at the equals sign of a number token. */
  lemma NotThere(before: Text, w: Wish, other: Wish)
    requires Rank(other) != Rank(w)
    requires before == [] || |KeyText(other)| <= |KeyText(w)|
    ensures |before| + |KeyText(w)| - 1 < |before + Written(w)|
    ensures !EndsAt(before + Written(w), KeyText(other), |before| + |KeyText(w)| - 1)
  {
    hide KeyText, ValueText;
    KeyShape(w);
    KeysApart(w, other);
    var at := |KeyText(w)| - 1;
    if |KeyText(other)| <= at + 1 {
      EndsAtWithin(before, KeyText(w), ValueText(w), KeyText(other), at);
      assert before + KeyText(w) + ValueText(w) == before + Written(w);
    }
  }

  /** A number token has no key but its own. */
  lemma OwnKeyOnly(w: Wish, other: Wish)
    requires !w.ForSsid? && Rank(other) != Rank(w)
    ensures After(Written(w), KeyText(other)).None?
  {
    hide KeyText, ValueText, After, Written;
    var t, at := Written(w), |KeyText(w)| - 1;
    KeyShape(w);
    KeyShape(other);
    NotThere([], w, other);
    assert [] + t == t;
    forall i | 0 <= i < |t| && t[i] == EQUALS
      ensures i == at
    {
      OneEqualsSign(w, i);
    }
    KeyNowhere(t, KeyText(other), at, at);
  }

  /** A number is cut to the size of its section. */
  lemma Cut(v: int)
    ensures ToByte(Atoi(Decimal(v))) == v % 256 && ToU16(Atoi(Decimal(v))) == v % 65536
  {
    hide Atoi, Decimal;
    AtoiReadsBack([], v, []);
    assert [] + Decimal(v) + [] == Decimal(v);
  }

  /** A token written for a wish is understood as meant. */
  lemma TokenMeant(w: Wish)
    ensures TokenSection(Written(w)) == Some(Meaning(w))
  {
    hide Bytes, After, Atoi, Decimal;
    KeyInFront(KeyText(w), ValueText(w));
    match w
    case ForSsid(_) =>
    case ForRssi(v) =>
      OwnKeyOnly(w, ForSsid([]));
      Cut(v);
    case ForInterval(v) =>
      OwnKeyOnly(w, ForSsid([]));
      OwnKeyOnly(w, ForRssi(0));
      Cut(v);
    case ForRepeat(v) =>
      OwnKeyOnly(w, ForSsid([]));
      OwnKeyOnly(w, ForRssi(0));
      OwnKeyOnly(w, ForInterval(0));
      Cut(v);
  }

  /** Of two wishes run together in one token, the one whose key is looked for first counts,
      even if it is written last. */
  lemma FirstKeyCounts(late: Wish, early: Wish)
    requires Rank(early) < Rank(late)
    ensures TokenSection(Written(late) + Written(early)) == Some(Meaning(early))
  {
    hide Bytes, After, Atoi, Decimal;
    EarlyKeyFound(late, early);
    match early
    case ForSsid(_) =>
    case ForRssi(v) =>
      NoEarlierKey(late, early, ForSsid([]));
      Cut(v);
    case ForInterval(v) =>
      NoEarlierKey(late, early, ForSsid([]));
      NoEarlierKey(late, early, ForRssi(0));
      Cut(v);
  }

  lemma EarlyKeyFound(late: Wish, early: Wish)
    requires Rank(early) < Rank(late)
    ensures After(Written(late) + Written(early), KeyText(early)) == Some(ValueText(early))
  {
    hide KeyText, ValueText, After;
    var p, key, at := Written(late), KeyText(early), |KeyText(late)| - 1;
    KeyShape(late);
    KeyShape(early);
    NotThere([], late, early);
    assert [] + p == p;
    forall i | 0 <= i < |p| && p[i] == EQUALS
      ensures i == at
    {
      OneEqualsSign(late, i);
    }
    KeyBehind(p, key, ValueText(early), at);
    assert p + key + ValueText(early) == p + Written(early);
  }

  lemma NoEarlierKey(late: Wish, early: Wish, other: Wish)
    requires Rank(other) < Rank(early) < Rank(late)
    ensures After(Written(late) + Written(early), KeyText(other)).None?
  {
    var p, q, key := Written(late), Written(early), KeyText(other);
    var at, bt := |KeyText(late)| - 1, |KeyText(early)| - 1;
    NeitherEnd(late, early, other);
    KeyShape(other);
    hide KeyText, ValueText, After, Written;
    forall i | 0 <= i < |p + q| && (p + q)[i] == EQUALS
      ensures i == at || i == |p| + bt
    {
      if i < |p| {
        OneEqualsSign(late, i);
      } else {
        OneEqualsSign(early, i - |p|);
      }
    }
    KeyNowhere(p + q, key, at, |p| + bt);
  }

  lemma NeitherEnd(late: Wish, early: Wish, other: Wish)
    requires Rank(other) < Rank(early) < Rank(late)
    ensures var t, at, bt := Written(late) + Written(early), |KeyText(late)| - 1, |Written(late) + KeyText(early)| - 1;
            0 <= at < |t| && 0 <= bt < |t| && !EndsAt(t, KeyText(other), at) && !EndsAt(t, KeyText(other), bt)
  {
    var p, q, key := Written(late), Written(early), KeyText(other);
    KeyShape(late);
    KeyShape(early);
    KeyShape(other);
    hide KeyText, ValueText, EndsAt;
    NotThere([], late, other);
    EndsAtWithin([], p, q, key, |KeyText(late)| - 1);
    assert [] + p == p && [] + p + q == p + q;
    NotThere(p, early, other);
  }

  // ----- a whole command

  function AllWritten(wishes: seq<Wish>): seq<Text> {
    seq(|wishes|, i requires 0 <= i < |wishes| => Written(wishes[i]))
  }

  function AllMeant(wishes: seq<Wish>): seq<Section> {
    seq(|wishes|, i requires 0 <= i < |wishes| => Meaning(wishes[i]))
  }

  /** What is sent for a request as it is written: what each wish means, in their order; the
      networks only if no SSID is wished for; 30 seconds and 5 repeats where none is given. */
  function Expected(wishes: seq<Wish>, networks: seq<Section>): seq<Section> {
    AllMeant(wishes)
    + (if exists w <- wishes :: w.ForSsid? then [] else networks)
    + (if exists w <- wishes :: w.ForInterval? then [] else [Interval(30)])
    + (if exists w <- wishes :: w.ForRepeat? then [] else [Repeat(5)])
  }

  lemma {:induction false} TokensMeant(wishes: seq<Wish>)
    ensures TokenSections(AllWritten(wishes)) == AllMeant(wishes)
  {
    hide TokenSection, Meaning, Written;
    if wishes != [] {
      TokensMeant(DropLast(wishes));
      TokenMeant(Last(wishes));
      assert DropLast(AllWritten(wishes)) == AllWritten(DropLast(wishes));
    }
  }

  lemma WrittenIsWord(w: Wish)
    requires w.ForSsid? ==> w.name == [] || Word(w.name)
    ensures Word(Written(w))
  {
    hide Bytes, Decimal;
    Spellings();
  }

  /** A printed request becomes the sections that were meant. */
  lemma RequestMeant(cmd: Text, wishes: seq<Wish>, gaps: seq<Text>, after: Text, conf: Networks)
    requires |gaps| == |wishes| && (forall g <- gaps :: Gap(g)) && (after == [] || Gap(after))
    requires forall w <- wishes :: w.ForSsid? ==> w.name == [] || Word(w.name)
    requires cmd == Bytes("BGSCAN-START") + (Spaced(AllWritten(wishes), gaps) + after)
    ensures Sections(cmd, conf) == Expected(wishes, AtMost(16, Usable(conf)))
  {
    hide Spaced, Written, Usable, Meaning, TokenSections, Tokens, Bytes;
    var s := Spaced(AllWritten(wishes), gaps) + after;
    forall t | t in AllWritten(wishes)
      ensures Word(t)
    {
      var i :| 0 <= i < |wishes| && t == Written(wishes[i]);
      WrittenIsWord(wishes[i]);
    }
    TokensReadBack(AllWritten(wishes), gaps, after);
    SpacedStart(AllWritten(wishes), gaps, after);
    StartWithArguments(cmd, s);
    TokensMeant(wishes);
    KindsKept(wishes);
  }

  lemma KindsKept(wishes: seq<Wish>)
    ensures HasSsid(AllMeant(wishes)) <==> exists w <- wishes :: w.ForSsid?
    ensures HasInterval(AllMeant(wishes)) <==> exists w <- wishes :: w.ForInterval?
    ensures HasRepeat(AllMeant(wishes)) <==> exists w <- wishes :: w.ForRepeat?
  {
    var xs := AllMeant(wishes);
    assert forall i | 0 <= i < |wishes| :: xs[i] == Meaning(wishes[i]) && xs[i] in xs && wishes[i] in wishes;
  }

  // ----- the networks

  /** The configured networks in order, each with whether it is disabled. */
  function Listed(conf: Networks): seq<(bool, seq<byte>)> {
    match conf
    case End => []
    case Network(disabled, ssid, next) => [(disabled, ssid)] + Listed(next)
  }

  /** Enabled, with a name of at most 32 bytes. */
  predicate Sendable(network: (bool, seq<byte>)) {
    !network.0 && |network.1| <= 32
  }

  /** How many of the first k can be sent. */
  function SendableAmong(list: seq<(bool, seq<byte>)>, k: nat): nat
    requires k <= |list|
  {
    if k == 0 then 0 else SendableAmong(list, k - 1) + if Sendable(list[k - 1]) then 1 else 0
  }

  lemma {:induction false} SendableFirst(first: (bool, seq<byte>), list: seq<(bool, seq<byte>)>, k: nat)
    requires k <= |list|
    ensures SendableAmong([first] + list, k + 1) == SendableAmong(list, k) + if Sendable(first) then 1 else 0
  {
    if k > 0 {
      SendableFirst(first, list, k - 1);
    } else {
      assert SendableAmong([first] + list, 0) == 0;
    }
  }

  /** The networks sent are exactly the ones that can be, each in the place that its rank among
      them gives it. */
  lemma {:induction false} NetworksSent(conf: Networks, k: nat)
    requires k < |Listed(conf)|
    ensures |Usable(conf)| == SendableAmong(Listed(conf), |Listed(conf)|)
    ensures var r := SendableAmong(Listed(conf), k);
            Sendable(Listed(conf)[k]) ==> r < |Usable(conf)| && Usable(conf)[r] == Ssid(Listed(conf)[k].1)
  {
    var first, list := (conf.disabled, conf.ssid), Listed(conf.next);
    SendableFirst(first, list, |list|);
    if list == [] {
      NothingListed(conf.next);
    } else if k > 0 {
      SendableFirst(first, list, k - 1);
      NetworksSent(conf.next, k - 1);
    } else {
      NetworksSent(conf.next, 0);
      assert SendableAmong(Listed(conf), 0) == 0;
    }
  }

  lemma NothingListed(conf: Networks)
    requires Listed(conf) == []
    ensures Usable(conf) == []
  {
  }

  // ----- the bytes

  /** "BGSCAN-CONFIG " */
  lemma HeaderBytes()
    ensures Header() == [66, 71, 83, 67, 65, 78, 45, 67, 79, 78, 70, 73, 71, 32]
  {
  }

  /** The sections of a BGSCAN-CONFIG: 'S', 'R', 'T' and 'E'. */
  lemma SectionBytes(name: seq<byte>, level: byte, seconds: u16, count: byte)
    ensures Encode(Ssid(name)) == [83, ToByte(|name|)] + name
    ensures Encode(Rssi(level)) == [82, level]
    ensures Encode(Interval(seconds)) == [84, seconds % 256, seconds / 256]
    ensures Encode(Repeat(count)) == [69, count]
  {
    LowHigh(seconds);
  }
}
