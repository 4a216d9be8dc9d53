/** The BGSCAN-CONFIG command built from a BGSCAN-START command and the network list; the
    wireless-extensions and the nl80211 driver build it alike. */
module BgScan {
  import opened Basics
  import opened ScanText
  import opened ScanCodec
  import opened ScanBuffer
  import opened ScanReadBack

  const BUF_LEN: nat := 720
  const HEADER_SIZE: nat := 14
  const SSID_AMOUNT: nat := 16
  const SSID_MAX_SIZE: nat := 32
  const INTERVAL_DEF: u16 := 30
  const REPEAT_DEF: byte := 5

  /** The configured networks, a singly linked list. */
  datatype Networks = End | Network(disabled: bool, ssid: seq<byte>, next: Networks)

  function Header(): (h: seq<byte>)
    ensures |h| == HEADER_SIZE
  {
    Bytes("BGSCAN-CONFIG ")
  }

  // ----- what the command must carry

  /** The first key found anywhere in the token decides. */
  function TokenSection(token: Text): Option<Section> {
    var ssid, rssi := After(token, Bytes("SSID=")), After(token, Bytes("RSSI="));
    var interval, repeats := After(token, Bytes("INTERVAL=")), After(token, Bytes("REPEAT="));
    if ssid.Some? then Some(Ssid(ssid.value))
    else if rssi.Some? then Some(Rssi(ToByte(Atoi(rssi.value))))
    else if interval.Some? then Some(Interval(ToU16(Atoi(interval.value))))
    else if repeats.Some? then Some(Repeat(ToByte(Atoi(repeats.value))))
    else None
  }

  function TokenSections(tokens: seq<Text>): seq<Section> {
    if tokens == [] then []
    else
      TokenSections(DropLast(tokens)) +
      match TokenSection(Last(tokens))
      case None => []
      case Some(x) => [x]
  }

  /** The tokens after the command word. */
  function Arguments(cmd: Text): seq<Text> {
    if Tokens(cmd) == [] then [] else Tokens(cmd)[1..]
  }

  function Usable(conf: Networks): seq<Section> {
    match conf
    case End => []
    case Network(disabled, ssid, next) =>
      (if !disabled && |ssid| <= SSID_MAX_SIZE then [Ssid(ssid)] else []) + Usable(next)
  }

  function AtMost(n: nat, xs: seq<Section>): seq<Section> {
    if |xs| <= n then xs else xs[..n]
  }

  predicate HasSsid(xs: seq<Section>) {
    exists x <- xs :: x.Ssid?
  }

  predicate HasInterval(xs: seq<Section>) {
    exists x <- xs :: x.Interval?
  }

  predicate HasRepeat(xs: seq<Section>) {
    exists x <- xs :: x.Repeat?
  }

  function Fallback(asked: seq<Section>, conf: Networks): seq<Section> {
    if HasSsid(asked) then [] else AtMost(SSID_AMOUNT, Usable(conf))
  }

  function DefaultInterval(asked: seq<Section>): seq<Section> {
    if HasInterval(asked) then [] else [Interval(INTERVAL_DEF)]
  }

  function DefaultRepeat(asked: seq<Section>): seq<Section> {
    if HasRepeat(asked) then [] else [Repeat(REPEAT_DEF)]
  }

  /** What was asked for; the first sixteen usable networks if no SSID was; a default
      interval and a default repeat count if none was given. */
  function Sections(cmd: Text, conf: Networks): seq<Section> {
    var asked := TokenSections(Arguments(cmd));
    asked + Fallback(asked, conf) + DefaultInterval(asked) + DefaultRepeat(asked)
  }

  function Size(cmd: Text, conf: Networks): nat {
    HEADER_SIZE + |EncodeAll(Sections(cmd, conf))|
  }

  // ----- the encoder

  lemma EncodePrefix(xs: seq<Section>, ys: seq<Section>)
    requires xs <= ys
    ensures |EncodeAll(xs)| <= |EncodeAll(ys)|
  {
    assert ys == xs + ys[|xs|..];
    EncodeAppend(xs, ys[|xs|..]);
  }

  lemma OneMore(xs: seq<Section>, x: Section)
    ensures EncodeAll(xs + [x]) == EncodeAll(xs) + Encode(x)
  {
    assert DropLast(xs + [x]) == xs;
  }

  lemma NextToken(tokens: seq<Text>, t: nat)
    requires t < |tokens|
    ensures TokenSections(tokens[..t + 1]) == TokenSections(tokens[..t]) +
              (if TokenSection(tokens[t]).Some? then [TokenSection(tokens[t]).value] else [])
  {
    assert DropLast(tokens[..t + 1]) == tokens[..t];
  }

  lemma {:induction false} TokenSectionsPrefix(tokens: seq<Text>, t: nat)
    requires t <= |tokens|
    ensures TokenSections(tokens[..t]) <= TokenSections(tokens)
    decreases |tokens| - t
  {
    if t == |tokens| {
      assert tokens[..t] == tokens;
    } else {
      NextToken(tokens, t);
      TokenSectionsPrefix(tokens, t + 1);
    }
  }

  datatype Key = SsidKey | RssiKey | IntervalKey | RepeatKey | NoKey

  function KeyOf(x: Option<Section>): Key {
    if x.None? then NoKey
    else if x.value.Ssid? then SsidKey
    else if x.value.Rssi? then RssiKey
    else if x.value.Interval? then IntervalKey
    else RepeatKey
  }

  /** One token: its section, if it has a key, and which key that was. */
  method PutToken(token: Text, buf: array<byte>, bp0: nat) returns (bp: nat, key: Key)
    requires TokenSection(token).Some? ==> bp0 + |Encode(TokenSection(token).value)| <= buf.Length
    requires bp0 <= buf.Length
    modifies buf
    ensures key == KeyOf(TokenSection(token))
    ensures TokenSection(token).None? ==> bp == bp0 && buf[..bp] == old(buf[..bp0])
    ensures var x := TokenSection(token);
            x.Some? ==> (x.value.Ssid? || x.value.Rssi? || x.value.Interval? || x.value.Repeat?)
                        && bp == bp0 + |Encode(x.value)| <= buf.Length
                        && buf[..bp] == old(buf[..bp0]) + Encode(x.value)
  {
    hide After, Atoi;
    var ssid := After(token, Bytes("SSID="));
    var rssi := After(token, Bytes("RSSI="));
    var interval := After(token, Bytes("INTERVAL="));
    var repeats := After(token, Bytes("REPEAT="));
    bp, key := bp0, NoKey;
    if ssid.Some? {
      key := SsidKey;
      bp := PutSsid(buf, bp, ssid.value);
    } else if rssi.Some? {
      key := RssiKey;
      bp := PutOne(buf, bp, TAG_R, ToByte(Atoi(rssi.value)));
    } else if interval.Some? {
      key := IntervalKey;
      LowHigh(Atoi(interval.value));
      bp := PutTwo(buf, bp, TAG_T, Atoi(interval.value));
    } else if repeats.Some? {
      key := RepeatKey;
      bp := PutOne(buf, bp, TAG_E, ToByte(Atoi(repeats.value)));
    }
  }

  /** The token loop: one section for each matching token, and which kinds there were. */
  method PutTokens(tokens: seq<Text>, buf: array<byte>, bp0: nat)
    returns (bp: nat, findSsid: bool, findInterval: bool, findRepeat: bool, i: nat)
    requires bp0 + |EncodeAll(TokenSections(tokens))| <= buf.Length
    modifies buf
    ensures bp == bp0 + |EncodeAll(TokenSections(tokens))|
    ensures buf[..bp] == old(buf[..bp0]) + EncodeAll(TokenSections(tokens))
    ensures findSsid == HasSsid(TokenSections(tokens)) && (!findSsid ==> i == 0)
    ensures findInterval == HasInterval(TokenSections(tokens)) && findRepeat == HasRepeat(TokenSections(tokens))
  {
    hide EncodeAll, Encode, TokenSections, TokenSection;
    bp, i := bp0, 0;
    findSsid, findInterval, findRepeat := false, false, false;
    ghost var done: seq<Section> := [];
    var t := 0;
    NoTokens(tokens);
    while t < |tokens|
      invariant t <= |tokens| && done == TokenSections(tokens[..t])
      invariant bp == bp0 + |EncodeAll(done)| <= buf.Length
      invariant buf[..bp] == old(buf[..bp0]) + EncodeAll(done)
      invariant findSsid == HasSsid(done) && (!findSsid ==> i == 0)
      invariant findInterval == HasInterval(done) && findRepeat == HasRepeat(done)
    {
      NextToken(tokens, t);
      TokenSectionsPrefix(tokens, t + 1);
      EncodePrefix(TokenSections(tokens[..t + 1]), TokenSections(tokens));
      ghost var x := TokenSection(tokens[t]);
      if x.Some? {
        OneMore(done, x.value);
        done := done + [x.value];
      }
      var key;
      bp, key := PutToken(tokens[t], buf, bp);
      match key {
        case SsidKey =>
          findSsid := true;
          i := i + 1;
        case IntervalKey => findInterval := true;
        case RepeatKey => findRepeat := true;
        case _ =>
      }
      t := t + 1;
    }
    assert tokens[..t] == tokens;
  }

  lemma NoTokens(tokens: seq<Text>)
    ensures TokenSections(tokens[..0]) == [] && EncodeAll([]) == []
  {
  }

  predicate Eligible(node: Networks) {
    node.Network? && !node.disabled && |node.ssid| <= SSID_MAX_SIZE
  }

  /** One step of the walk: `done` sections are written and `node` is next. */
  lemma NextNetwork(conf: Networks, done: seq<Section>, node: Networks)
    requires node.Network? && |done| < SSID_AMOUNT && Usable(conf) == done + Usable(node)
    ensures !Eligible(node) ==> Usable(conf) == done + Usable(node.next)
    ensures Eligible(node) ==>
              var more := done + [Ssid(node.ssid)];
              && Usable(conf) == more + Usable(node.next)
              && EncodeAll(more) == EncodeAll(done) + Encode(Ssid(node.ssid))
              && |EncodeAll(more)| <= |EncodeAll(AtMost(SSID_AMOUNT, Usable(conf)))|
              && |Encode(Ssid(node.ssid))| == 2 + |node.ssid|
  {
    hide EncodeAll;
    if Eligible(node) {
      var more := done + [Ssid(node.ssid)];
      Associative(done, [Ssid(node.ssid)], Usable(node.next));
      assert more <= AtMost(SSID_AMOUNT, Usable(conf));
      EncodePrefix(more, AtMost(SSID_AMOUNT, Usable(conf)));
      OneMore(done, Ssid(node.ssid));
    }
  }

  lemma WalkDone(conf: Networks, done: seq<Section>, node: Networks)
    requires Usable(conf) == done + Usable(node) && |done| <= SSID_AMOUNT
    requires |done| == SSID_AMOUNT || node.End?
    ensures done == AtMost(SSID_AMOUNT, Usable(conf))
  {
  }

  /** The walk over the configured networks. */
  method PutNetworks(conf: Networks, buf: array<byte>, bp0: nat) returns (bp: nat)
    requires bp0 + |EncodeAll(AtMost(SSID_AMOUNT, Usable(conf)))| <= buf.Length
    modifies buf
    ensures bp == bp0 + |EncodeAll(AtMost(SSID_AMOUNT, Usable(conf)))|
    ensures buf[..bp] == old(buf[..bp0]) + EncodeAll(AtMost(SSID_AMOUNT, Usable(conf)))
  {
    hide EncodeAll, Encode, Usable, AtMost;
    ghost var done: seq<Section> := [];
    var i := 0;
    var node := conf;
    bp := bp0;
    NoTokens([]);
    while i < SSID_AMOUNT && node.Network?
      invariant i == |done| <= SSID_AMOUNT && Usable(conf) == done + Usable(node)
      invariant bp == bp0 + |EncodeAll(done)| <= buf.Length
      invariant buf[..bp] == old(buf[..bp0]) + EncodeAll(done)
      decreases node
    {
      NextNetwork(conf, done, node);
      if !node.disabled && |node.ssid| <= SSID_MAX_SIZE {
        bp := PutSsid(buf, bp, node.ssid);
        i := i + 1;
        done := done + [Ssid(node.ssid)];
      }
      node := node.next;
    }
    WalkDone(conf, done, node);
  }

  method BackgroundScan(cmd: Text, conf: Networks, buf: array<byte>) returns (bp: nat)
    requires Size(cmd, conf) <= buf.Length
    modifies buf
    ensures bp == Size(cmd, conf)
    ensures buf[..bp] == Header() + EncodeAll(Sections(cmd, conf))
  {
    hide EncodeAll, Tokens, TokenSections, Usable, Header;
    ghost var asked := TokenSections(Arguments(cmd));
    ghost var a, b := EncodeAll(asked), EncodeAll(Fallback(asked, conf));
    ghost var c := if HasInterval(asked) then [] else [TAG_T, Low(INTERVAL_DEF), High(INTERVAL_DEF)];
    ghost var d := if HasRepeat(asked) then [] else [TAG_E, REPEAT_DEF];
    SectionsEncoded(cmd, conf);
    bp := PutBytes(buf, 0, Header());
    var findSsid, findInterval, findRepeat, i;
    bp, findSsid, findInterval, findRepeat, i := PutTokens(Arguments(cmd), buf, bp);
    if !findSsid {
      bp := PutNetworks(conf, buf, bp);
    }
    assert buf[..bp] == Header() + a + b;
    if !findInterval {
      bp := PutTwo(buf, bp, TAG_T, INTERVAL_DEF);
    }
    assert buf[..bp] == Header() + a + b + c;
    if !findRepeat {
      bp := PutOne(buf, bp, TAG_E, REPEAT_DEF);
    }
    assert buf[..bp] == Header() + a + b + c + d;
    Associative(Header(), a, b);
    Associative(Header(), a + b, c);
    Associative(Header(), a + b + c, d);
  }

  lemma EmptyEncoding()
    ensures EncodeAll([]) == []
    ensures Encode(Interval(INTERVAL_DEF)) == [TAG_T, Low(INTERVAL_DEF), High(INTERVAL_DEF)]
    ensures Encode(Repeat(REPEAT_DEF)) == [TAG_E, REPEAT_DEF]
  {
  }

  lemma SectionsEncoded(cmd: Text, conf: Networks)
    ensures var asked := TokenSections(Arguments(cmd));
            EncodeAll(Sections(cmd, conf)) ==
              EncodeAll(asked) + EncodeAll(Fallback(asked, conf))
              + (if HasInterval(asked) then [] else [TAG_T, Low(INTERVAL_DEF), High(INTERVAL_DEF)])
              + (if HasRepeat(asked) then [] else [TAG_E, REPEAT_DEF])
    ensures !HasSsid(TokenSections(Arguments(cmd))) || EncodeAll(Fallback(TokenSections(Arguments(cmd)), conf)) == []
  {
    hide EncodeAll, Tokens, TokenSections, Usable, Encode;
    var asked := TokenSections(Arguments(cmd));
    EmptyEncoding();
    var fallback, interval, repeats := Fallback(asked, conf), DefaultInterval(asked), DefaultRepeat(asked);
    EncodeAppend(asked, fallback);
    EncodeAppend(asked + fallback, interval);
    EncodeAppend(asked + fallback + interval, repeats);
    EncodeSingle(Interval(INTERVAL_DEF));
    EncodeSingle(Repeat(REPEAT_DEF));
  }

  // ----- round trip

  lemma {:induction false} TokenSectionsSpeak(tokens: seq<Text>)
    ensures Speaks(BgScan, TokenSections(tokens))
    ensures AllShort(TokenSections(tokens)) <==>
            forall t <- tokens :: After(t, Bytes("SSID=")).Some? ==> |After(t, Bytes("SSID=")).value| < 256
  {
    hide After, Atoi;
    if tokens != [] {
      var most, last := DropLast(tokens), Last(tokens);
      TokenSectionsSpeak(most);
      assert tokens == most + [last];
      var x := TokenSection(last);
      assert TokenSections(tokens) == TokenSections(most) + if x.None? then [] else [x.value];
      assert x.Some? ==> x.value in TokenSections(tokens);
      assert forall y <- TokenSections(tokens) :: y in TokenSections(most) || x == Some(y);
    }
  }

  lemma {:induction false} UsableSpeaks(conf: Networks)
    ensures Speaks(BgScan, Usable(conf)) && AllShort(Usable(conf))
    ensures forall x <- Usable(conf) :: x.Ssid? && |x.name| <= SSID_MAX_SIZE
  {
    if conf.Network? {
      UsableSpeaks(conf.next);
    }
  }

  /** A decoder started after the header reads off exactly the sections the command must
      carry, unless some SSID in the command is longer than its length byte can say. */
  lemma BackgroundScanDecodes(cmd: Text, conf: Networks)
    ensures Decode(BgScan, EncodeAll(Sections(cmd, conf))) == Some(Sections(cmd, conf)) <==>
            forall t <- Arguments(cmd) :: After(t, Bytes("SSID=")).Some? ==> |After(t, Bytes("SSID=")).value| < 256
  {
    hide Tokens, TokenSections, Usable, Decode, EncodeAll, After;
    var asked := TokenSections(Arguments(cmd));
    TokenSectionsSpeak(Arguments(cmd));
    UsableSpeaks(conf);
    assert forall x <- Fallback(asked, conf) :: x in Usable(conf);
    RoundTripIff(BgScan, Sections(cmd, conf));
    assert forall x <- asked :: x in Sections(cmd, conf);
  }

  // ----- how much room it takes

  /** The tokens, each with a delimiter after it. */
  function Weight(tokens: seq<Text>): nat {
    if tokens == [] then 0 else Weight(DropLast(tokens)) + |Last(tokens)| + 1
  }

  lemma {:induction false} WeightCons(t: Text, ts: seq<Text>)
    ensures Weight([t] + ts) == |t| + 1 + Weight(ts)
  {
    if ts == [] {
      assert [t] + ts == [t] && DropLast([t]) == [];
    } else {
      WeightCons(t, DropLast(ts));
      assert DropLast([t] + ts) == [t] + DropLast(ts);
    }
  }

  lemma {:induction false} TokensFit(s: Text)
    ensures Weight(Tokens(s)) <= |s| + 1
    ensures s != [] && Delimiter(s[0]) ==> Weight(Tokens(s)) <= |s|
    decreases |s|
  {
    var r := SkipDelimiters(s);
    if r != [] {
      var rest := r[TokenLength(r)..];
      TokensFit(rest);
      WeightCons(r[..TokenLength(r)], Tokens(rest));
    }
  }

  /** A matching token emits at least three bytes fewer than it has; any but an SSID emits no
      more than a third of its weight. */
  lemma TokenCost(token: Text, x: Section)
    requires TokenSection(token) == Some(x)
    ensures |Encode(x)| + 3 <= |token|
    ensures !x.Ssid? ==> 3 * |Encode(x)| <= |token| + 1
  {
    hide After, Atoi;
    AfterShorter(token, Bytes("SSID="));
    AfterShorter(token, Bytes("RSSI="));
    AfterShorter(token, Bytes("INTERVAL="));
    AfterShorter(token, Bytes("REPEAT="));
  }

  lemma AfterShorter(token: Text, key: Text)
    ensures After(token, key).Some? ==> |key| + |After(token, key).value| <= |token|
  {
  }

  lemma {:induction false} TokensCost(tokens: seq<Text>)
    ensures var xs := TokenSections(tokens);
            && (xs != [] ==> |EncodeAll(xs)| + 4 <= Weight(tokens))
            && (xs == [] ==> |EncodeAll(xs)| == 0)
            && (!HasSsid(xs) ==> 3 * |EncodeAll(xs)| <= Weight(tokens))
  {
    hide TokenSection, Encode;
    if tokens != [] {
      var most, last := DropLast(tokens), Last(tokens);
      TokensCost(most);
      var xs := TokenSections(most);
      if TokenSection(last).Some? {
        var x := TokenSection(last).value;
        TokenCost(last, x);
        OneMore(xs, x);
        assert TokenSections(tokens) == xs + [x];
        assert x in xs + [x] && forall y <- xs :: y in xs + [x];
      } else {
        assert TokenSections(tokens) == xs;
      }
    }
  }

  lemma {:induction false} NamesCost(xs: seq<Section>)
    requires forall x <- xs :: x.Ssid? && |x.name| <= SSID_MAX_SIZE
    ensures |EncodeAll(xs)| <= (SSID_MAX_SIZE + 2) * |xs|
  {
    if xs != [] {
      NamesCost(DropLast(xs));
      assert Last(xs) in xs;
    }
  }

  /** The command word, as the caller has matched it. */
  predicate HasWord(cmd: Text) {
    |cmd| >= 12 && forall i | 0 <= i < 12 :: !Delimiter(cmd[i])
  }

  predicate AsksSsid(cmd: Text) {
    HasSsid(TokenSections(Arguments(cmd)))
  }

  lemma ArgumentsWeight(cmd: Text)
    requires HasWord(cmd)
    ensures Weight(Arguments(cmd)) <= |cmd| - 12
  {
    var n := TokenLength(cmd);
    TokensFit(cmd);
    assert SkipDelimiters(cmd) == cmd && n >= 12;
    var rest := Tokens(cmd[n..]);
    assert Tokens(cmd) == [cmd[..n]] + rest;
    assert Arguments(cmd) == rest;
    WeightCons(cmd[..n], rest);
  }

  /** With an SSID token the command becomes at most three bytes longer, so 717 bytes of it fit
      the 720-byte buffer; with none, the networks cost at most 544 bytes and the tokens a third
      of their text, so 485 bytes fit. */
  lemma SizeBound(cmd: Text, conf: Networks)
    requires HasWord(cmd)
    ensures AsksSsid(cmd) ==> Size(cmd, conf) <= |cmd| + 3
    ensures !AsksSsid(cmd) ==> 3 * (Size(cmd, conf) - 563) <= |cmd| - 12
    ensures |cmd| <= (if AsksSsid(cmd) then 717 else 485) ==> Size(cmd, conf) <= BUF_LEN
  {
    hide EncodeAll, Tokens, TokenSections, Usable;
    var asked := TokenSections(Arguments(cmd));
    SectionsEncoded(cmd, conf);
    ArgumentsWeight(cmd);
    TokensCost(Arguments(cmd));
    UsableSpeaks(conf);
    var fallback := Fallback(asked, conf);
    assert forall x <- fallback :: x in Usable(conf);
    NamesCost(fallback);
  }

  // ----- the bounds are the best there are

  function FullNetworks(n: nat): Networks {
    if n == 0 then End else Network(false, seq(SSID_MAX_SIZE, _ => 0), FullNetworks(n - 1))
  }

  /** A command made of its word and the given text has the text's tokens for arguments. */
  lemma StartWithArguments(cmd: Text, s: Text)
    requires cmd == Bytes("BGSCAN-START") + s && (s != [] ==> Delimiter(s[0]))
    ensures HasWord(cmd) && Arguments(cmd) == Tokens(s)
  {
    hide Tokens;
    var word := Bytes("BGSCAN-START");
    assert forall i | 0 <= i < 12 :: word[i] == "BGSCAN-START"[i] as int && !Delimiter(word[i]);
    WordFirst(word, s);
  }

  lemma RssiWord()
    ensures Word(Bytes("RSSI="))
    ensures TokenSection(Bytes("RSSI=")) == Some(Rssi(0))
  {
    var t := Bytes("RSSI=");
    assert forall i | 0 <= i < 5 :: t[i] == "RSSI="[i] as int;
    assert t[0] != Bytes("SSID=")[0];
    assert After(t, Bytes("SSID=")).None?;
    assert OccursAt(t, Bytes("RSSI="), 0);
  }

  lemma {:induction false} RssiLength(words: seq<Text>, gaps: seq<Text>)
    requires |words| == |gaps| && (forall w <- words :: |w| == 5) && (forall g <- gaps :: |g| == 1)
    ensures |Spaced(words, gaps)| == 6 * |words|
    decreases |words|
  {
    if words != [] {
      assert words[0] in words && gaps[0] in gaps;
      RssiLength(words[1..], gaps[1..]);
    }
  }

  lemma {:induction false} RssiSections(tokens: seq<Text>)
    requires forall t <- tokens :: t == Bytes("RSSI=")
    ensures var xs := TokenSections(tokens);
            |EncodeAll(xs)| == 2 * |tokens| && forall x <- xs :: x == Rssi(0)
  {
    hide TokenSection, EncodeAll, Bytes, Word;
    if tokens != [] {
      assert Last(tokens) in tokens && forall t <- DropLast(tokens) :: t in tokens;
      RssiSections(DropLast(tokens));
      RssiWord();
      OneMore(TokenSections(DropLast(tokens)), Rssi(0));
    } else {
      EmptyEncoding();
    }
  }

  lemma {:induction false} FullNetworksCost(n: nat)
    ensures |Usable(FullNetworks(n))| == n && |EncodeAll(Usable(FullNetworks(n)))| == 34 * n
  {
    if n > 0 {
      FullNetworksCost(n - 1);
      var name: seq<byte> := seq(SSID_MAX_SIZE, _ => 0);
      EncodeAppend([Ssid(name)], Usable(FullNetworks(n - 1)));
      EncodeSingle(Ssid(name));
    }
  }

  /** Seventy-nine RSSI tokens, any spaces, and sixteen networks are a byte too much. */
  lemma TooLong(n: nat) returns (cmd: Text, conf: Networks)
    requires 486 <= n
    ensures HasWord(cmd) && |cmd| == n && Size(cmd, conf) == BUF_LEN + 1
  {
    hide EncodeAll, Tokens, TokenSections, Usable, FullNetworks, Spaced, Bytes;
    var words, gaps, after := seq(79, _ => Bytes("RSSI=")), seq(79, _ => [SPACE]), seq(n - 486, _ => SPACE);
    var s := Spaced(words, gaps) + after;
    cmd, conf := Bytes("BGSCAN-START") + s, FullNetworks(16);
    RssiWord();
    RssiLength(words, gaps);
    TokensReadBack(words, gaps, after);
    SpacedStart(words, gaps, after);
    StartWithArguments(cmd, s);
    RssiSections(Tokens(s));
    FullNetworksCost(16);
    SectionsEncoded(cmd, conf);
  }

  lemma SsidToken(token: Text, name: seq<byte>)
    requires token == Bytes("SSID=") + name && (name == [] || Word(name))
    ensures Word(token)
    ensures TokenSection(token) == Some(Ssid(name))
  {
    hide Atoi;
    var key := Bytes("SSID=");
    assert forall i | 0 <= i < 5 :: key[i] == "SSID="[i] as int;
    assert OccursAt(token, key, 0);
    assert token[5..] == name;
  }

  /** One SSID token costs three bytes more than its command has. */
  lemma TooLongSsid(n: nat) returns (cmd: Text)
    requires 18 <= n
    ensures HasWord(cmd) && |cmd| == n && AsksSsid(cmd) && forall conf :: Size(cmd, conf) == n + 3
  {
    hide EncodeAll, Tokens, Usable;
    var name: seq<byte> := seq(n - 18, _ => 65);
    var token := Bytes("SSID=") + name;
    cmd := Bytes("BGSCAN-START") + ([SPACE] + token);
    SsidToken(token, name);
    GapSkipped([SPACE], token);
    assert token + [] == token;
    WordFirst(token, []);
    EmptyText();
    StartWithArguments(cmd, [SPACE] + token);
    assert Arguments(cmd) == [token];
    assert TokenSections([token]) == [Ssid(name)];
    EncodeSingle(Ssid(name));
    forall conf ensures Size(cmd, conf) == n + 3 { SectionsEncoded(cmd, conf); }
  }

  /** The commands of a length all fit exactly up to 485 bytes; those that ask for an SSID,
      exactly up to 717. */
  lemma FitsExactly(n: nat)
    requires n >= 12
    ensures (forall cmd, conf :: HasWord(cmd) && |cmd| == n ==> Size(cmd, conf) <= BUF_LEN) <==> n <= 485
    ensures (forall cmd, conf :: HasWord(cmd) && |cmd| == n && AsksSsid(cmd) ==> Size(cmd, conf) <= BUF_LEN)
            <==> n <= 717
  {
    hide Size, AsksSsid, HasWord;
    forall cmd, conf | HasWord(cmd) && |cmd| == n
      ensures Size(cmd, conf) <= BUF_LEN || n > (if AsksSsid(cmd) then 717 else 485)
    {
      SizeBound(cmd, conf);
    }
    if n > 485 {
      var cmd, conf := TooLong(n);
    }
    if n > 717 {
      var cmd := TooLongSsid(n);
      assert Size(cmd, End) > BUF_LEN;
    }
  }
}
