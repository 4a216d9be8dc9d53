/** The vendor library's configuration commands and their completion callbacks, in place over
    buffers that pass between the library and the stack. */
module HciConfig {
  import opened Basics
  import opened HciPacket

  /** The two configurations; each has its own completion callback. */
  datatype Kind = Fw | Sco

  /** What crosses the interface between library and stack. Buffers have numbers of their own. */
  datatype Event =
    | Alloc(got: Option<nat>)
    | Dealloc(id: nat)
    | Deliver(evt: nat)
    | Parse(read: nat)
    | Xmit(opcode: Opcode, sent: nat, packet: seq<byte>, callback: Kind, accepted: bool)
    | Done(kind: Kind, ok: bool)

  /** How the stack answers an attempt to send. */
  datatype Answer = NoBuffer | Refused(id: nat) | Accepted(id: nat)

  /** What a completion leads to: another command, or the end. */
  datatype Reaction = Send(opcode: Opcode, params: seq<byte>) | Finish(ok: bool)

  // ----- the protocol as values

  function React(kind: Kind, opcode: Opcode): Reaction {
    match kind
    case Fw => Finish(opcode == WRITE_BD_ADDRESS)
    case Sco =>
      if opcode == WRITE_PCM_SETTINGS then Send(WRITE_PCM_SYNC_SETTINGS, PCM_SYNC_SETTINGS)
      else if opcode == WRITE_PCM_SYNC_SETTINGS then Send(WRITE_PCM_LINK_SETTINGS, PCM_LINK_SETTINGS)
      else if opcode == WRITE_PCM_LINK_SETTINGS then Send(SET_SCO_DATA_PATH, SCO_DATA_PATH)
      else Finish(opcode == SET_SCO_DATA_PATH)
  }

  /** Build a command and hand it over; give it back and report failure if it is refused. */
  function SendEvents(kind: Kind, opcode: Opcode, params: seq<byte>, a: Answer): seq<Event> {
    match a
    case NoBuffer => [Alloc(None), Done(kind, false)]
    case Refused(id) =>
      [Alloc(Some(id)), Xmit(opcode, id, CommandPacket(opcode, params), kind, false), Dealloc(id), Done(kind, false)]
    case Accepted(id) => [Alloc(Some(id)), Xmit(opcode, id, CommandPacket(opcode, params), kind, true)]
  }

  function StartEvents(kind: Kind, addr: seq<byte>, a: Answer): seq<Event>
    requires |addr| == 6
  {
    if kind.Fw? then SendEvents(Fw, WRITE_BD_ADDRESS, BdAddressParams(addr), a)
    else SendEvents(Sco, WRITE_PCM_SETTINGS, PCM_SETTINGS, a)
  }

  function ReactionEvents(kind: Kind, r: Reaction, a: Answer): seq<Event> {
    match r
    case Send(opcode, params) => SendEvents(kind, opcode, params, a)
    case Finish(ok) => [Done(kind, ok)]
  }

  /** A completion callback: read the event, give its buffer back, then react. */
  function CompletionEvents(kind: Kind, evt: nat, opcode: Opcode, a: Answer): seq<Event> {
    [Parse(evt), Dealloc(evt)] + ReactionEvents(kind, React(kind, opcode), a)
  }

  // ----- the library in place

  datatype Owner = Library | Stack | Nobody

  class Buffer {
    const id: nat
    const data: array<byte>
    var owner: Owner

    constructor (id: nat, size: nat)
      ensures this.id == id && data.Length == size && owner == Library && fresh(data)
    {
      this.id, data, owner := id, new byte[size](_ => 0), Library;
    }
  }

  /** The Bluetooth stack's side. It allocates, or not; it accepts, or not; and it logs. */
  class BtStack {
    var trace: seq<Event>
    var nextId: nat

    constructor ()
      ensures trace == []
    {
      trace, nextId := [], 0;
    }

    method DoAlloc(size: nat) returns (b: Buffer?)
      modifies this
      ensures b == null ==> trace == old(trace) + [Alloc(None)]
      ensures b != null ==> fresh(b) && fresh(b.data) && b.data.Length == size && b.owner == Library
                            && trace == old(trace) + [Alloc(Some(b.id))]
    {
      var refuse: bool := *;
      if refuse {
        trace := trace + [Alloc(None)];
        return null;
      }
      b := new Buffer(nextId, size);
      nextId := nextId + 1;
      trace := trace + [Alloc(Some(b.id))];
    }

    /** A buffer that has been given away is nobody's to give again. */
    method DoDealloc(b: Buffer)
      requires b.owner == Library
      modifies this, b`owner
      ensures b.owner == Nobody && trace == old(trace) + [Dealloc(b.id)]
    {
      b.owner := Nobody;
      trace := trace + [Dealloc(b.id)];
    }

    method DoXmit(opcode: Opcode, b: Buffer, callback: Kind) returns (accepted: bool)
      requires b.owner == Library
      modifies this, b`owner
      ensures b.owner == if accepted then Stack else Library
      ensures trace == old(trace) + [Xmit(opcode, b.id, b.data[..], callback, accepted)]
    {
      accepted := *;
      if accepted {
        b.owner := Stack;
      }
      trace := trace + [Xmit(opcode, b.id, b.data[..], callback, accepted)];
    }

    method Report(kind: Kind, ok: bool)
      modifies this
      ensures trace == old(trace) + [Done(kind, ok)]
    {
      trace := trace + [Done(kind, ok)];
    }

    method NoteParse(b: Buffer)
      requires b.owner == Library
      modifies this
      ensures trace == old(trace) + [Parse(b.id)]
    {
      trace := trace + [Parse(b.id)];
    }
  }

  class VendorLibrary {
    const stack: BtStack
    const writeBdAddress: array<byte>
    var bdaddr: seq<byte>

    ghost predicate Valid()
      reads this, writeBdAddress
    {
      |bdaddr| == 6 && writeBdAddress.Length == 8 && writeBdAddress[0] == 0xFE && writeBdAddress[1] == 0x06
    }

    constructor (stack: BtStack, bdaddr: seq<byte>)
      requires |bdaddr| == 6
      ensures Valid() && this.stack == stack && this.bdaddr == bdaddr && fresh(writeBdAddress)
    {
      this.stack, this.bdaddr := stack, bdaddr;
      writeBdAddress := new byte[8](i => if i == 0 then 0xFE else if i == 1 then 0x06 else 0);
    }

    /** Overwrites the address part of the static parameters, however often. */
    method PopulateBdAddrParams()
      requires Valid()
      modifies writeBdAddress
      ensures Valid() && writeBdAddress[..] == BdAddressParams(bdaddr)
    {
      for i := 0 to 6
        invariant writeBdAddress[0] == 0xFE && writeBdAddress[1] == 0x06
        invariant forall k | 2 <= k < 2 + i :: writeBdAddress[k] == bdaddr[7 - k]
      {
        writeBdAddress[2 + i] := bdaddr[5 - i];
      }
    }

    method BuildCmdBuf(opcode: Opcode, payload: seq<byte>) returns (b: Buffer?)
      requires |payload| < 256
      modifies stack
      ensures b == null ==> stack.trace == old(stack.trace) + [Alloc(None)]
      ensures b != null ==>
                && fresh(b) && b.owner == Library && stack.trace == old(stack.trace) + [Alloc(Some(b.id))]
                && b.data[..] == CommandPacket(opcode, payload)
    {
      b := stack.DoAlloc(CMD_PREAMBLE_SIZE + |payload|);
      if b == null {
        return;
      }
      b.data[0] := ToByte(opcode);
      b.data[1] := ToByte(opcode / 256);
      b.data[2] := |payload|;
      for i := 0 to |payload|
        invariant b.data[..3] == [ToByte(opcode), ToByte(opcode / 256), ToByte(|payload|)]
        invariant b.data[3..3 + i] == payload[..i]
        invariant fresh(b) && fresh(b.data)
        modifies b.data
      {
        b.data[3 + i] := payload[i];
      }
      assert b.data[..] == b.data[..3] + b.data[3..3 + |payload|];
    }

    method ParseEvtBuf(evt: Buffer) returns (opcode: Opcode, status: byte)
      requires evt.owner == Library && evt.data.Length > EVT_CMD_CMPL_OPCODE + 2
      modifies stack
      ensures (opcode, status) == ParseEvent(evt.data[..]) && stack.trace == old(stack.trace) + [Parse(evt.id)]
    {
      stack.NoteParse(evt);
      opcode := FromStream(evt.data[EVT_CMD_CMPL_OPCODE], evt.data[EVT_CMD_CMPL_OPCODE + 1]);
      status := evt.data[EVT_CMD_CMPL_OPCODE + 2];
    }

    /** The shared end of every sender: transmit, or give back and report failure. */
    method SendOrAbort(opcode: Opcode, b: Buffer?, ghost payload: seq<byte>, kind: Kind, ghost before: seq<Event>)
      returns (ghost a: Answer)
      requires stack.trace == before + [Alloc(if b == null then None else Some(b.id))]
      requires b != null ==> b.owner == Library && b.data[..] == CommandPacket(opcode, payload)
      modifies stack, b
      ensures stack.trace == before + SendEvents(kind, opcode, payload, a)
    {
      a := NoBuffer;
      if b != null {
        var accepted := stack.DoXmit(opcode, b, kind);
        if accepted {
          return Accepted(b.id);
        } else {
          stack.DoDealloc(b);
          a := Refused(b.id);
        }
      }
      stack.Report(kind, false);
    }

    /** hw_mrvl_config_start */
    method ConfigStart() returns (ghost a: Answer)
      requires Valid()
      modifies stack, writeBdAddress
      ensures Valid() && stack.trace == old(stack.trace) + StartEvents(Fw, bdaddr, a)
    {
      PopulateBdAddrParams();
      var b := BuildCmdBuf(WRITE_BD_ADDRESS, writeBdAddress[..]);
      a := SendOrAbort(WRITE_BD_ADDRESS, b, BdAddressParams(bdaddr), Fw, old(stack.trace));
    }

    /** hw_mrvl_sco_config */
    method ScoConfig() returns (ghost a: Answer)
      requires Valid()
      modifies stack
      ensures Valid() && stack.trace == old(stack.trace) + StartEvents(Sco, bdaddr, a)
    {
      var b := BuildCmdBuf(WRITE_PCM_SETTINGS, PCM_SETTINGS);
      a := SendOrAbort(WRITE_PCM_SETTINGS, b, PCM_SETTINGS, Sco, old(stack.trace));
    }

    /** hw_mrvl_config_start_cb */
    method ConfigStartCb(evt: Buffer)
      requires Valid() && evt.owner == Library && evt.data.Length > EVT_CMD_CMPL_OPCODE + 2
      modifies stack, evt`owner
      ensures Valid() && evt.owner == Nobody
      ensures stack.trace == old(stack.trace)
                + CompletionEvents(Fw, evt.id, ParseEvent(old(evt.data[..])).0, NoBuffer)
    {
      var opcode, status := ParseEvtBuf(evt);
      stack.DoDealloc(evt);
      if opcode == WRITE_BD_ADDRESS {
        stack.Report(Fw, true);
        return;
      }
      stack.Report(Fw, false);
    }

    /** hw_mrvl_sco_config_cb */
    method ScoConfigCb(evt: Buffer) returns (ghost a: Answer)
      requires Valid() && evt.owner == Library && evt.data.Length > EVT_CMD_CMPL_OPCODE + 2
      modifies stack, evt`owner
      ensures Valid() && evt.owner == Nobody
      ensures stack.trace == old(stack.trace)
                + CompletionEvents(Sco, evt.id, ParseEvent(old(evt.data[..])).0, a)
    {
      var opcode, status := ParseEvtBuf(evt);
      stack.DoDealloc(evt);
      ghost var before, reaction := stack.trace, React(Sco, opcode);
      var next: Opcode := opcode;
      var b: Buffer? := null;
      a := NoBuffer;
      if opcode == WRITE_PCM_SETTINGS {
        next := WRITE_PCM_SYNC_SETTINGS;
        b := BuildCmdBuf(next, PCM_SYNC_SETTINGS);
      } else if opcode == WRITE_PCM_SYNC_SETTINGS {
        next := WRITE_PCM_LINK_SETTINGS;
        b := BuildCmdBuf(next, PCM_LINK_SETTINGS);
      } else if opcode == WRITE_PCM_LINK_SETTINGS {
        next := SET_SCO_DATA_PATH;
        b := BuildCmdBuf(next, SCO_DATA_PATH);
      } else if opcode == SET_SCO_DATA_PATH {
        stack.Report(Sco, true);
        return;
      } else {
        stack.Report(Sco, false);
        return;
      }
      a := SendOrAbort(next, b, reaction.params, Sco, before);
      Associative(old(stack.trace), [Parse(evt.id), Dealloc(evt.id)], SendEvents(Sco, next, reaction.params, a));
    }
  }
}
