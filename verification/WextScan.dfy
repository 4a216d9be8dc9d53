/** The CSCAN commands of the wireless-extensions driver. */
module WextScan {
  import opened Basics
  import opened ScanText
  import opened ScanCodec
  import opened ScanBuffer

  const CSCAN_BUF_LEN: nat := 360
  const HEADER_SIZE: nat := 12
  const ESSID_MAX_SIZE: nat := 32
  const PASSIVE_DWELL: u16 := 130
  const PASSIVE_DWELL_DEF: u16 := 250
  const PASSIVE_DWELL_MAX: u16 := 3000
  const HOME_DWELL: u16 := 130
  const TYPE_PASSIVE: byte := 1

  /** "CSCAN S\x01\x00\x00S\x00" */
  function Header(): (h: seq<byte>)
    ensures |h| == HEADER_SIZE
  {
    Bytes("CSCAN S") + [1, 0, 0] + Bytes("S") + [0]
  }

  // ----- combo scan

  function SsidSections(ssids: seq<seq<byte>>): (xs: seq<Section>)
    ensures |xs| == |ssids|
  {
    seq(|ssids|, i requires 0 <= i < |ssids| => Ssid(ssids[i]))
  }

  const COMBO_TAIL: seq<Section> := [Channel(0), PassiveDwell(PASSIVE_DWELL), HomeDwell(HOME_DWELL)]

  /** The cursor after the first n SSIDs. */
  function Cursor(ssids: seq<seq<byte>>, n: nat): nat
    requires n <= |ssids|
  {
    HEADER_SIZE + |EncodeAll(SsidSections(ssids[..n]))|
  }

  /** The guard at the head of the loop: another SSID and the tail still fit. */
  predicate Room(cursor: nat) {
    cursor + ESSID_MAX_SIZE + 10 < CSCAN_BUF_LEN
  }

  lemma NextSsid(ssids: seq<seq<byte>>, n: nat)
    requires n < |ssids|
    ensures EncodeAll(SsidSections(ssids[..n + 1])) == EncodeAll(SsidSections(ssids[..n])) + Encode(Ssid(ssids[n]))
    ensures Cursor(ssids, n + 1) == Cursor(ssids, n) + 2 + |ssids[n]|
  {
    var xs := SsidSections(ssids[..n + 1]);
    assert xs == SsidSections(ssids[..n]) + [Ssid(ssids[n])];
    assert DropLast(xs) == SsidSections(ssids[..n]);
  }

  lemma TailBytes()
    ensures EncodeAll(COMBO_TAIL) == [TAG_C, 0, TAG_P, 130, 0, TAG_H, 130, 0]
  {
    assert DropLast(COMBO_TAIL) == [Channel(0), PassiveDwell(PASSIVE_DWELL)];
    assert DropLast([Channel(0), PassiveDwell(PASSIVE_DWELL)]) == [Channel(0)];
    EncodeSingle(Channel(0));
  }

  /** Fill the buffer with as many SSIDs as the guard lets in, then the tail. */
  method ComboScan(ssids: seq<seq<byte>>, buf: array<byte>) returns (bp: nat, emitted: nat)
    requires buf.Length == CSCAN_BUF_LEN && forall s <- ssids :: |s| <= ESSID_MAX_SIZE
    modifies buf
    ensures emitted <= |ssids| && bp <= CSCAN_BUF_LEN
    ensures forall n | 0 <= n < emitted :: Room(Cursor(ssids, n))
    ensures emitted < |ssids| ==> !Room(Cursor(ssids, emitted))
    ensures buf[..bp] == Header() + EncodeAll(SsidSections(ssids[..emitted]) + COMBO_TAIL)
  {
    hide EncodeAll, Encode, SsidSections, Header;
    bp := PutBytes(buf, 0, Header());
    NoSsids(ssids);
    emitted := 0;
    while emitted < |ssids|
      invariant emitted <= |ssids| && bp == Cursor(ssids, emitted) <= CSCAN_BUF_LEN - 9
      invariant forall n | 0 <= n < emitted :: Room(Cursor(ssids, n))
      invariant buf[..bp] == Header() + EncodeAll(SsidSections(ssids[..emitted]))
    {
      if bp + ESSID_MAX_SIZE + 10 >= CSCAN_BUF_LEN {
        break;
      }
      NextSsid(ssids, emitted);
      bp := PutSsid(buf, bp, ssids[emitted]);
      emitted := emitted + 1;
    }
    bp := PutOne(buf, bp, TAG_C, 0);
    bp := PutTwo(buf, bp, TAG_P, PASSIVE_DWELL);
    bp := PutTwo(buf, bp, TAG_H, HOME_DWELL);
    ComboBytes(SsidSections(ssids[..emitted]));
  }

  lemma ComboBytes(names: seq<Section>)
    ensures Header() + EncodeAll(names + COMBO_TAIL) ==
              Header() + EncodeAll(names) + [TAG_C, 0] + [TAG_P, Low(PASSIVE_DWELL), High(PASSIVE_DWELL)]
              + [TAG_H, Low(HOME_DWELL), High(HOME_DWELL)]
  {
    hide EncodeAll, Header;
    TailBytes();
    EncodeAppend(names, COMBO_TAIL);
  }

  lemma NoSsids(ssids: seq<seq<byte>>)
    ensures EncodeAll(SsidSections(ssids[..0])) == []
  {
  }

  /** However many were emitted under that guard: the cursor stays one short of the buffer,
      nine SSIDs or all of them got in, and a decoder started after the header recovers a
      prefix of the list and the tail. */
  lemma ComboScanMeaning(ssids: seq<seq<byte>>, emitted: nat)
    requires forall s <- ssids :: |s| <= ESSID_MAX_SIZE
    requires emitted <= |ssids|
    requires forall n | 0 <= n < emitted :: Room(Cursor(ssids, n))
    requires emitted < |ssids| ==> !Room(Cursor(ssids, emitted))
    ensures var body := EncodeAll(SsidSections(ssids[..emitted]) + COMBO_TAIL);
            && HEADER_SIZE + |body| <= CSCAN_BUF_LEN - 1
            && Decode(CScan, body) == Some(SsidSections(ssids[..emitted]) + COMBO_TAIL)
    ensures emitted >= if |ssids| <= 9 then |ssids| else 9
  {
    hide EncodeAll, Encode, Decode;
    TailBytes();
    EncodeAppend(SsidSections(ssids[..emitted]), COMBO_TAIL);
    assert forall s <- ssids[..emitted] :: s in ssids;
    ComboSections(ssids[..emitted]);
    RoundTrip(CScan, SsidSections(ssids[..emitted]) + COMBO_TAIL);
    NoSsids(ssids);
    if emitted > 0 {
      NextSsid(ssids, emitted - 1);
    }
    if emitted < |ssids| {
      CursorBound(ssids, emitted);
    }
  }

  lemma ComboSections(ssids: seq<seq<byte>>)
    requires forall s <- ssids :: |s| <= ESSID_MAX_SIZE
    ensures Speaks(CScan, SsidSections(ssids) + COMBO_TAIL) && AllShort(SsidSections(ssids) + COMBO_TAIL)
  {
    assert forall i | 0 <= i < |ssids| :: SsidSections(ssids)[i] == Ssid(ssids[i]) && ssids[i] in ssids;
  }

  lemma {:induction false} CursorBound(ssids: seq<seq<byte>>, n: nat)
    requires n <= |ssids| && forall s <- ssids :: |s| <= ESSID_MAX_SIZE
    ensures Cursor(ssids, n) <= HEADER_SIZE + n * (ESSID_MAX_SIZE + 2)
  {
    hide EncodeAll, SsidSections;
    NoSsids(ssids);
    if n > 0 {
      CursorBound(ssids, n - 1);
      NextSsid(ssids, n - 1);
    }
  }

  /** With full-length SSIDs no more than nine get in. */
  lemma {:induction false} NineFullSsids(ssids: seq<seq<byte>>, n: nat)
    requires n <= |ssids| && forall s <- ssids :: |s| == ESSID_MAX_SIZE
    ensures Cursor(ssids, n) == HEADER_SIZE + n * (ESSID_MAX_SIZE + 2)
    ensures Room(Cursor(ssids, n)) <==> n < 9
  {
    hide EncodeAll, SsidSections;
    NoSsids(ssids);
    if n > 0 {
      NineFullSsids(ssids, n - 1);
      NextSsid(ssids, n - 1);
    }
  }

  // ----- a single-channel scan

  function TimeKey(): Text {
    Bytes(",TIME=")
  }

  /** The passive dwell asked for after ",TIME=", as a nonzero u16. */
  function AskedDwell(cmd: Text): (d: u16)
    ensures d > 0
  {
    var t := After(cmd, TimeKey());
    if t.None? || ToU16(Atoi(t.value)) == 0 then PASSIVE_DWELL_DEF else ToU16(Atoi(t.value))
  }

  /** The channel after "CSCAN", the command being cut short at ",TIME=". */
  function AskedChannel(cmd: Text): byte
    requires |cmd| >= 5
  {
    var cut := FindIn(cmd, TimeKey(), 0);
    ToByte(Atoi(if cut.Some? && cut.value >= 5 then cmd[5..cut.value] else cmd[5..]))
  }

  function ChannelSections(channel: byte, n: nat): seq<Section> {
    seq(n, _ => Channel(channel))
  }

  function SentDwell(channel: byte, dwell: u16): u16 {
    if channel != 0 then PASSIVE_DWELL_DEF
    else if dwell > PASSIVE_DWELL_MAX then PASSIVE_DWELL_MAX
    else dwell
  }

  function DwellTail(channel: byte, dwell: u16): seq<Section> {
    [PassiveDwell(SentDwell(channel, dwell)), HomeDwell(HOME_DWELL), ScanType(TYPE_PASSIVE)]
  }

  /** One channel section and some repeats of it, then the dwell times and the type. */
  function ChannelScan(channel: byte, repeats: nat, dwell: u16): seq<Section> {
    ChannelSections(channel, 1 + repeats) + DwellTail(channel, dwell)
  }

  /** How far the dwell loop goes: to its count, unless the guard stops it. */
  predicate Repeats(channel: byte, dwell: u16, bufLen: nat, repeats: nat)
    requires dwell > 0
  {
    if channel == 0 then repeats == 0
    else
      && repeats <= (dwell - 1) / PASSIVE_DWELL_DEF
      && (forall m | 0 <= m < repeats :: HEADER_SIZE + 2 + 2 * m + 12 < bufLen)
      && (repeats < (dwell - 1) / PASSIVE_DWELL_DEF ==> HEADER_SIZE + 2 + 2 * repeats + 12 >= bufLen)
  }

  lemma OneMoreChannel(channel: byte, n: nat)
    ensures EncodeAll(ChannelSections(channel, n + 1)) == EncodeAll(ChannelSections(channel, n)) + [TAG_C, channel]
  {
    var xs := ChannelSections(channel, n + 1);
    assert DropLast(xs) == ChannelSections(channel, n);
  }

  lemma DwellTailBytes(channel: byte, dwell: u16)
    ensures var p := DwellTail(channel, dwell)[0].ms;
            EncodeAll(DwellTail(channel, dwell))
              == [TAG_P, Low(p), High(p), TAG_H, Low(HOME_DWELL), High(HOME_DWELL), TAG_T, TYPE_PASSIVE]
  {
    var t := DwellTail(channel, dwell);
    assert DropLast(t) == t[..2] && DropLast(t[..2]) == [t[0]];
    EncodeSingle(t[0]);
  }

  method CscanParams(buf: array<byte>, bufLen: nat, cmd: Text) returns (bp: nat, ghost repeats: nat)
    requires |cmd| >= 5 && 22 <= buf.Length && bufLen <= buf.Length
    modifies buf
    ensures Repeats(AskedChannel(cmd), AskedDwell(cmd), bufLen, repeats)
    ensures bp <= buf.Length
    ensures buf[..bp] == Header() + EncodeAll(ChannelScan(AskedChannel(cmd), repeats, AskedDwell(cmd)))
  {
    hide EncodeAll, FindIn, Atoi, ChannelSections, AskedDwell, AskedChannel, Header, ChannelScan;
    var dwell := AskedDwell(cmd);
    var channel := AskedChannel(cmd);
    bp := PutBytes(buf, 0, Header());
    repeats := 0;
    NoChannels(channel);
    OneMoreChannel(channel, 0);
    bp := PutOne(buf, bp, TAG_C, channel);
    if channel != 0 {
      var i: int := (dwell - 1) / PASSIVE_DWELL_DEF;
      while i > 0
        invariant i >= 0 && repeats + i == (dwell - 1) / PASSIVE_DWELL_DEF
        invariant bp == HEADER_SIZE + 2 + 2 * repeats && bp + 8 <= buf.Length
        invariant forall m | 0 <= m < repeats :: HEADER_SIZE + 2 + 2 * m + 12 < bufLen
        invariant buf[..bp] == Header() + EncodeAll(ChannelSections(channel, 1 + repeats))
      {
        if bp + 12 >= bufLen {
          break;
        }
        OneMoreChannel(channel, 1 + repeats);
        bp := PutOne(buf, bp, TAG_C, channel);
        repeats := repeats + 1;
        i := i - 1;
      }
    } else if dwell > PASSIVE_DWELL_MAX {
      dwell := PASSIVE_DWELL_MAX;
    }
    bp := PutTwo(buf, bp, TAG_P, if channel != 0 then PASSIVE_DWELL_DEF else dwell);
    bp := PutTwo(buf, bp, TAG_H, HOME_DWELL);
    bp := PutOne(buf, bp, TAG_T, TYPE_PASSIVE);
    ScanBytes(channel, repeats, AskedDwell(cmd));
  }

  lemma ScanBytes(channel: byte, repeats: nat, dwell: u16)
    ensures var p := SentDwell(channel, dwell);
            Header() + EncodeAll(ChannelScan(channel, repeats, dwell)) ==
              Header() + EncodeAll(ChannelSections(channel, 1 + repeats))
              + [TAG_P, Low(p), High(p)] + [TAG_H, Low(HOME_DWELL), High(HOME_DWELL)] + [TAG_T, TYPE_PASSIVE]
  {
    hide EncodeAll, ChannelSections, Header;
    DwellTailBytes(channel, dwell);
    EncodeAppend(ChannelSections(channel, 1 + repeats), DwellTail(channel, dwell));
  }

  lemma NoChannels(channel: byte)
    ensures EncodeAll(ChannelSections(channel, 0)) == []
  {
  }

  /** What a decoder started after the header reads off: the passive time spent in all. */
  function TotalPassive(xs: seq<Section>): int {
    if xs == [] then 0
    else
      TotalPassive(xs[1..]) + if xs[0].Channel? then DwellOf(xs[1..]) else 0
  }

  function DwellOf(xs: seq<Section>): int {
    if xs == [] then 0 else if xs[0].PassiveDwell? then xs[0].ms else DwellOf(xs[1..])
  }

  lemma TailTotal(channel: byte, dwell: u16)
    ensures DwellOf(DwellTail(channel, dwell)) == DwellTail(channel, dwell)[0].ms
    ensures TotalPassive(DwellTail(channel, dwell)) == 0
  {
    var t := DwellTail(channel, dwell);
    assert t[1..] == [t[1], t[2]] && [t[1], t[2]][1..] == [t[2]] && [t[2]][1..] == [];
    assert TotalPassive([t[2]]) == 0;
    assert TotalPassive([t[1], t[2]]) == 0;
  }

  lemma {:induction false} TotalOfChannels(channel: byte, n: nat, dwell: u16)
    ensures var xs := ChannelSections(channel, n) + DwellTail(channel, dwell);
            && DwellOf(xs) == DwellTail(channel, dwell)[0].ms
            && TotalPassive(xs) == n * DwellTail(channel, dwell)[0].ms
  {
    var tail := DwellTail(channel, dwell);
    var xs := ChannelSections(channel, n) + tail;
    if n == 0 {
      assert xs == tail;
      TailTotal(channel, dwell);
    } else {
      TotalOfChannels(channel, n - 1, dwell);
      var rest := ChannelSections(channel, n - 1) + tail;
      assert xs[1..] == rest && xs[0] == Channel(channel);
      assert n * tail[0].ms == (n - 1) * tail[0].ms + tail[0].ms;
    }
  }

  /** The cursor stays inside the buffer; the decoder recovers the sections; on a numbered
      channel the total passive time is the least multiple of 250 that covers the one asked
      for, exactly when the buffer has room for all the repeats; on channel 0 it is the one
      asked for, up to the maximum. */
  lemma CscanMeaning(channel: byte, dwell: u16, bufLen: nat, repeats: nat)
    requires dwell > 0 && bufLen >= 22 && Repeats(channel, dwell, bufLen, repeats)
    ensures var xs := ChannelScan(channel, repeats, dwell);
            var cursor := HEADER_SIZE + |EncodeAll(xs)|;
            && Decode(CScan, EncodeAll(xs)) == Some(xs)
            && cursor == 22 + 2 * repeats && (cursor == 22 || cursor <= bufLen - 3)
            && (channel == 0 ==> TotalPassive(xs) == if dwell > PASSIVE_DWELL_MAX then PASSIVE_DWELL_MAX else dwell)
            && (channel != 0 ==> TotalPassive(xs) % 250 == 0 && TotalPassive(xs) - 250 < dwell)
            && (channel != 0 ==> (TotalPassive(xs) >= dwell <==> dwell <= 250 || 24 + 2 * ((dwell - 1) / 250) < bufLen))
  {
    hide EncodeAll, Decode, TotalPassive, DwellOf;
    var xs := ChannelScan(channel, repeats, dwell);
    RoundTrip(CScan, xs);
    TotalOfChannels(channel, 1 + repeats, dwell);
    EncodeAppend(ChannelSections(channel, 1 + repeats), DwellTail(channel, dwell));
    DwellTailBytes(channel, dwell);
    ChannelBytes(channel, 1 + repeats);
    assert repeats > 0 && channel != 0 ==> HEADER_SIZE + 2 + 2 * (repeats - 1) + 12 < bufLen;
    if channel != 0 {
      Coverage(channel, dwell, bufLen, repeats);
    }
  }

  lemma Coverage(channel: byte, dwell: u16, bufLen: nat, repeats: nat)
    requires channel != 0 && dwell > 0 && Repeats(channel, dwell, bufLen, repeats)
    ensures 250 * (1 + repeats) - 250 < dwell
    ensures 250 * (1 + repeats) >= dwell <==> dwell <= 250 || 24 + 2 * ((dwell - 1) / 250) < bufLen
  {
    var full := (dwell - 1) / 250;
    assert 250 * full <= dwell - 1 < 250 * full + 250;
    assert 0 < repeats ==> HEADER_SIZE + 2 + 2 * (repeats - 1) + 12 < bufLen;
  }

  lemma {:induction false} ChannelBytes(channel: byte, n: nat)
    ensures |EncodeAll(ChannelSections(channel, n))| == 2 * n
  {
    if n > 0 {
      ChannelBytes(channel, n - 1);
      OneMoreChannel(channel, n - 1);
    }
  }
}
