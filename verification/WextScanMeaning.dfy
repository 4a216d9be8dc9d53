/** What the CSCAN commands send, in the numbers that the caller wrote and the bytes of the
    protocol. */
module WextScanMeaning {
  import opened Basics
  import opened ScanText
  import opened ScanReadBack
  import opened ScanCodec
  import opened WextScan

  const COMMA: byte := 44

  predicate NoComma(s: Text) {
    forall c <- s :: c != COMMA
  }

  lemma TimeSpelling()
    ensures TimeKey() == [44, 84, 73, 77, 69, 61]
  {
  }

  /** The key is found at the first comma, if it is there, and nowhere without one. */
  lemma FirstComma(front: Text, behind: Text)
    requires NoComma(front)
    ensures FindIn(front + TimeKey() + behind, TimeKey(), 0) == Some(|front|)
    ensures FindIn(front, TimeKey(), 0) == None
  {
    TimeSpelling();
    hide TimeKey;
    var t, key := front + TimeKey() + behind, TimeKey();
    assert t[|front|..|front| + |key|] == key;
    assert OccursAt(t, key, |front|);
    forall k: nat | k < |front|
      ensures !OccursAt(t, key, k) && !OccursAt(front, key, k)
    {
      assert front[k] in front && t[k] == front[k];
      assert k + |key| <= |t| ==> t[k..k + |key|][0] == t[k];
      assert k + |key| <= |front| ==> front[k..k + |key|][0] == front[k];
    }
  }

  lemma ChannelText(word: Text, blanks: Text, channel: int)
    requires |word| == 5 && NoComma(word) && forall c <- blanks :: Blank(c)
    ensures NoComma(word + blanks + Decimal(channel))
    ensures (word + blanks + Decimal(channel))[5..] == blanks + Decimal(channel)
  {
    hide Decimal;
  }

  /** A scan of a channel: the command word, however spelled, and the channel's number. */
  lemma PlainScanAsked(word: Text, blanks: Text, channel: int)
    requires |word| == 5 && NoComma(word) && forall c <- blanks :: Blank(c)
    ensures var cmd := word + blanks + Decimal(channel);
            AskedChannel(cmd) == channel % 256 && AskedDwell(cmd) == 250
  {
    hide Decimal, Atoi, FindIn;
    ChannelText(word, blanks, channel);
    FirstComma(word + blanks + Decimal(channel), []);
    AtoiReadsBack(blanks, channel, []);
    assert blanks + Decimal(channel) + [] == blanks + Decimal(channel);
  }

  /** With a time behind ",TIME=": the number read there, mod 65536, or 250 for none. */
  lemma TimedScanAsked(word: Text, blanks: Text, channel: int, gap: Text, time: int, after: Text)
    requires |word| == 5 && NoComma(word) && (forall c <- blanks :: Blank(c)) && (forall c <- gap :: Blank(c))
    requires EndsNumber(after)
    ensures var cmd := word + blanks + Decimal(channel) + Bytes(",TIME=") + (gap + Decimal(time) + after);
            && AskedChannel(cmd) == channel % 256
            && AskedDwell(cmd) == if time % 65536 == 0 then 250 else time % 65536
  {
    hide Decimal, Atoi, FindIn;
    var front, behind := word + blanks + Decimal(channel), gap + Decimal(time) + after;
    var cmd := front + Bytes(",TIME=") + behind;
    ChannelText(word, blanks, channel);
    FirstComma(front, behind);
    assert cmd[5..|front|] == front[5..] && cmd[|front| + 6..] == behind;
    AtoiReadsBack(blanks, channel, []);
    assert blanks + Decimal(channel) + [] == blanks + Decimal(channel);
    AtoiReadsBack(gap, time, after);
  }

  /** From the text to the air: a numbered channel is listened to for the least multiple of
      250 ms that covers the time asked for, if the buffer has room; all channels for the
      time asked for, up to three seconds. */
  lemma TimedScanSpends(channel: int, time: int, bufLen: nat, repeats: nat)
    requires bufLen >= 22 && 0 < time < 65536 && 0 <= channel < 256
    requires var cmd := Bytes("CSCAN ") + Decimal(channel) + Bytes(",TIME=") + Decimal(time);
             Repeats(AskedChannel(cmd), AskedDwell(cmd), bufLen, repeats)
    ensures var cmd := Bytes("CSCAN ") + Decimal(channel) + Bytes(",TIME=") + Decimal(time);
            var body := EncodeAll(ChannelScan(AskedChannel(cmd), repeats, AskedDwell(cmd)));
            Decode(CScan, body).Some? && var total := TotalPassive(Decode(CScan, body).value);
            if channel == 0 then total == if time > 3000 then 3000 else time
            else
              && total % 250 == 0 && total - 250 < time
              && (total >= time <==> time <= 250 || 24 + 2 * ((time - 1) / 250) < bufLen)
  {
    hide Decimal, Atoi, FindIn, Bytes, EncodeAll, Decode, TotalPassive, ChannelScan, Repeats, AskedChannel, AskedDwell;
    var cmd := Bytes("CSCAN ") + Decimal(channel) + Bytes(",TIME=") + Decimal(time);
    CommandWord();
    assert cmd == Bytes("CSCAN") + [32] + Decimal(channel) + Bytes(",TIME=") + ([] + Decimal(time) + []);
    TimedScanAsked(Bytes("CSCAN"), [32], channel, [], time, []);
    CscanMeaning(AskedChannel(cmd), AskedDwell(cmd), bufLen, repeats);
  }

  lemma CommandWord()
    ensures Bytes("CSCAN ") == Bytes("CSCAN") + [32] && NoComma(Bytes("CSCAN"))
  {
  }

  // ----- the bytes

  /** "CSCAN S", version bytes 1, 0, 0, "S", 0 */
  lemma HeaderBytes()
    ensures Header() == [67, 83, 67, 65, 78, 32, 83, 1, 0, 0, 83, 0]
  {
  }

  /** The fixed parts: after the SSIDs of a combo scan, and after the channels of a
      single-channel scan, whose passive time is 250 on a numbered channel. */
  lemma FixedBytes(channel: byte, dwell: u16)
    ensures EncodeAll(COMBO_TAIL) == [67, 0, 80, 130, 0, 72, 130, 0]
    ensures channel != 0 ==> EncodeAll(DwellTail(channel, dwell)) == [80, 250, 0, 72, 130, 0, 84, 1]
    ensures channel == 0 ==>
              var d := if dwell > 3000 then 3000 else dwell;
              EncodeAll(DwellTail(channel, dwell)) == [80, d % 256, d / 256, 72, 130, 0, 84, 1]
    ensures EncodeAll(ChannelSections(channel, 1)) == [67, channel]
  {
    TailBytes();
    DwellTailBytes(channel, dwell);
    OneMoreChannel(channel, 0);
    NoChannels(channel);
    LowHigh(if dwell > 3000 then 3000 else dwell);
  }

  /** The guard lets an SSID in iff one of 32 bytes and the fixed part leave a byte of the
      360 over. */
  lemma RoomMeans(cursor: nat, name: seq<byte>)
    requires |name| == 32
    ensures Room(cursor) <==> cursor + |Encode(Ssid(name))| + |EncodeAll(COMBO_TAIL)| < 360
  {
    TailBytes();
  }
}
