/** The packets the Bluetooth vendor library builds and reads: the HCI command packet
    (Bluetooth Core Specification, HCI part, section 5.4.1) and the Command Complete event
    (section 7.7.14 of the same part). */
module HciPacket {
  import opened Basics

  type Opcode = v: int | 0 <= v < 65536

  const WRITE_PCM_SETTINGS: Opcode := 0xFC07
  const WRITE_PCM_SYNC_SETTINGS: Opcode := 0xFC28
  const WRITE_PCM_LINK_SETTINGS: Opcode := 0xFC29
  const SET_SCO_DATA_PATH: Opcode := 0xFC1D
  const WRITE_BD_ADDRESS: Opcode := 0xFC22

  const CMD_PREAMBLE_SIZE: nat := 3
  const EVT_CMD_CMPL_OPCODE: nat := 3
  const EVENT_COMMAND_COMPLETE: byte := 0x0E

  const PCM_SETTINGS: seq<byte> := [0x02]
  const PCM_SYNC_SETTINGS: seq<byte> := [0x03, 0x00, 0x03]
  const PCM_LINK_SETTINGS: seq<byte> := [0x03, 0x00]
  const SCO_DATA_PATH: seq<byte> := [0x01]

  /** STREAM_TO_UINT16 */
  function FromStream(lo: byte, hi: byte): Opcode {
    var l: int, h: int := lo, hi;
    l + 256 * h
  }

  /** An HCI command packet: opcode low byte first, parameter length, parameters. */
  function CommandPacket(opcode: Opcode, params: seq<byte>): seq<byte> {
    [ToByte(opcode), ToByte(opcode / 256), ToByte(|params|)] + params
  }

  /** A controller's reading of a command packet. */
  function ReadCommand(b: seq<byte>): Option<(Opcode, seq<byte>)> {
    if |b| < CMD_PREAMBLE_SIZE || |b| != CMD_PREAMBLE_SIZE + b[2] then None
    else Some((FromStream(b[0], b[1]), b[3..]))
  }

  /** What the controller reads is what was meant, exactly when the length fits its byte. */
  lemma CommandRoundTrip(opcode: Opcode, params: seq<byte>)
    ensures ReadCommand(CommandPacket(opcode, params)) == Some((opcode, params)) <==> |params| < 256
  {
    var b := CommandPacket(opcode, params);
    assert b[3..] == params;
    assert FromStream(b[0], b[1]) == opcode;
  }

  /** A Command Complete event: code, length, number of command packets, opcode, return
      parameters. */
  function CommandComplete(packets: byte, opcode: Opcode, returned: seq<byte>): seq<byte> {
    [EVENT_COMMAND_COMPLETE, ToByte(3 + |returned|), packets, ToByte(opcode), ToByte(opcode / 256)] + returned
  }

  /** What parse_evt_buf makes of an event. */
  function ParseEvent(b: seq<byte>): (Opcode, byte)
    requires |b| > EVT_CMD_CMPL_OPCODE + 2
  {
    (FromStream(b[EVT_CMD_CMPL_OPCODE], b[EVT_CMD_CMPL_OPCODE + 1]), b[EVT_CMD_CMPL_OPCODE + 2])
  }

  /** From a buffer that begins with a Command Complete event the opcode is recovered
      whatever was returned, and the first return parameter if there is one. */
  lemma EventRoundTrip(b: seq<byte>, packets: byte, opcode: Opcode, returned: seq<byte>)
    requires CommandComplete(packets, opcode, returned) <= b && |b| > EVT_CMD_CMPL_OPCODE + 2
    ensures ParseEvent(b).0 == opcode
    ensures returned != [] ==> ParseEvent(b).1 == returned[0]
  {
    var e := CommandComplete(packets, opcode, returned);
    assert forall i | 0 <= i < |e| :: b[i] == e[i];
    assert returned != [] ==> e[5] == returned[0];
  }

  // ----- the device address

  /** The parameters of WRITE_BD_ADDRESS: parameter id, length, address last byte first. */
  function BdAddressParams(addr: seq<byte>): seq<byte>
    requires |addr| == 6
  {
    [0xFE, 0x06, addr[5], addr[4], addr[3], addr[2], addr[1], addr[0]]
  }

  function ReadBdAddress(b: seq<byte>): seq<byte> {
    seq(6, i requires 0 <= i < 6 => if |b| == 8 then b[7 - i] else 0)
  }

  lemma BdAddressRoundTrip(addr: seq<byte>)
    requires |addr| == 6
    ensures ReadCommand(CommandPacket(WRITE_BD_ADDRESS, BdAddressParams(addr)))
         == Some((WRITE_BD_ADDRESS, BdAddressParams(addr)))
    ensures ReadBdAddress(BdAddressParams(addr)) == addr
  {
    CommandRoundTrip(WRITE_BD_ADDRESS, BdAddressParams(addr));
  }
}
