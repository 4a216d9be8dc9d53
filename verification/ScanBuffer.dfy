/** How the encoders advance through their fixed buffers. */
module ScanBuffer {
  import opened Basics
  import opened ScanCodec

  /** buf[bp++] = b */
  method PutByte(buf: array<byte>, bp: nat, b: byte) returns (bp': nat)
    requires bp < buf.Length
    modifies buf
    ensures bp' == bp + 1 && buf[..bp'] == old(buf[..bp]) + [b]
  {
    buf[bp] := b;
    bp' := bp + 1;
    assert buf[..bp'] == buf[..bp] + [b];
  }

  /** os_memcpy(&buf[bp], src, n); bp += n */
  method PutBytes(buf: array<byte>, bp: nat, src: seq<byte>) returns (bp': nat)
    requires bp + |src| <= buf.Length
    modifies buf
    ensures bp' == bp + |src| && buf[..bp'] == old(buf[..bp]) + src
  {
    for i := 0 to |src|
      invariant buf[..bp + i] == old(buf[..bp]) + src[..i]
    {
      buf[bp + i] := src[i];
      assert buf[..bp + i + 1] == buf[..bp + i] + [src[i]];
    }
    bp' := bp + |src|;
    assert src[..|src|] == src;
  }

  /** An 'S' section: tag, length byte, name. */
  method PutSsid(buf: array<byte>, bp: nat, name: seq<byte>) returns (bp': nat)
    requires bp + 2 + |name| <= buf.Length
    modifies buf
    ensures bp' == bp + 2 + |name| && buf[..bp'] == old(buf[..bp]) + Encode(Ssid(name))
  {
    bp' := PutByte(buf, bp, TAG_S);
    bp' := PutByte(buf, bp', ToByte(|name|));
    bp' := PutBytes(buf, bp', name);
  }

  /** A section with a one-byte value. */
  method PutOne(buf: array<byte>, bp: nat, tag: byte, value: byte) returns (bp': nat)
    requires bp + 2 <= buf.Length
    modifies buf
    ensures bp' == bp + 2 && buf[..bp'] == old(buf[..bp]) + [tag, value]
  {
    bp' := PutByte(buf, bp, tag);
    bp' := PutByte(buf, bp', value);
  }

  /** A section with a two-byte value, low byte first. */
  method PutTwo(buf: array<byte>, bp: nat, tag: byte, value: int) returns (bp': nat)
    requires bp + 3 <= buf.Length
    modifies buf
    ensures bp' == bp + 3 && buf[..bp'] == old(buf[..bp]) + [tag, Low(value), High(value)]
  {
    bp' := PutByte(buf, bp, tag);
    bp' := PutByte(buf, bp', Low(value));
    bp' := PutByte(buf, bp', High(value));
  }
}
