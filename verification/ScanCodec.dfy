/** The tag/length/value sections that the scan commands put after their headers, with a
    decoder that is written independently of the encoders. */
module ScanCodec {
  import opened Basics

  type u16 = v: int | 0 <= v < 65536

  datatype Section =
    | Ssid(name: seq<byte>)
    | Channel(channel: byte)
    | PassiveDwell(ms: u16)
    | HomeDwell(ms: u16)
    | ScanType(kind: byte)
    | Rssi(level: byte)
    | Interval(seconds: u16)
    | Repeat(count: byte)

  /** CSCAN and BGSCAN-CONFIG share the tags 'S' and 'T', but 'T' is a one-byte scan type in
      the first and a two-byte interval in the second. */
  datatype Dialect = CScan | BgScan

  const TAG_C: byte := 'C' as int
  const TAG_E: byte := 'E' as int
  const TAG_H: byte := 'H' as int
  const TAG_P: byte := 'P' as int
  const TAG_R: byte := 'R' as int
  const TAG_S: byte := 'S' as int
  const TAG_T: byte := 'T' as int

  function Low(v: int): byte {
    ToByte(v)
  }

  /** The (u8)(v >> 8) of a two's-complement int. */
  function High(v: int): byte {
    ToByte(v / 256)
  }

  function ToU16(v: int): u16 {
    v % 65536
  }

  lemma LowHigh(v: int)
    ensures Low(v) + 256 * High(v) == ToU16(v)
    ensures Low(ToU16(v)) == Low(v) && High(ToU16(v)) == High(v)
  {
    var q, r := v / 256, v % 256;
    var hi, lo := q / 256, q % 256;
    DivMod(v, 65536, hi, 256 * lo + r);
    DivMod(256 * lo + r, 256, lo, r);
  }

  function Encode(x: Section): seq<byte> {
    match x
    case Ssid(name) => [TAG_S, ToByte(|name|)] + name
    case Channel(c) => [TAG_C, c]
    case PassiveDwell(ms) => [TAG_P, Low(ms), High(ms)]
    case HomeDwell(ms) => [TAG_H, Low(ms), High(ms)]
    case ScanType(k) => [TAG_T, k]
    case Rssi(v) => [TAG_R, v]
    case Interval(v) => [TAG_T, Low(v), High(v)]
    case Repeat(n) => [TAG_E, n]
  }

  function EncodeAll(xs: seq<Section>): seq<byte> {
    if xs == [] then [] else EncodeAll(DropLast(xs)) + Encode(Last(xs))
  }

  predicate Belongs(d: Dialect, x: Section) {
    match x
    case Ssid(_) => true
    case Channel(_) => d.CScan?
    case PassiveDwell(_) => d.CScan?
    case HomeDwell(_) => d.CScan?
    case ScanType(_) => d.CScan?
    case _ => d.BgScan?
  }

  /** The length of an SSID must fit its length byte. */
  predicate Short(x: Section) {
    x.Ssid? ==> |x.name| < 256
  }

  predicate Speaks(d: Dialect, xs: seq<Section>) {
    forall x <- xs :: Belongs(d, x)
  }

  predicate AllShort(xs: seq<Section>) {
    forall x <- xs :: Short(x)
  }

  function Joined(lo: byte, hi: byte): (v: u16)
    ensures Low(v) == lo && High(v) == hi
  {
    lo as int + 256 * hi as int
  }

  lemma JoinedAgain(v: u16)
    ensures Joined(Low(v), High(v)) == v
  {
    LowHigh(v);
    DivMod(v, 65536, 0, v);
  }

  /** One section at the front of the bytes, and how many bytes it takes. The tags are 'C', 'E',
      'H', 'P', 'R', 'S' and 'T'. */
  function DecodeOne(d: Dialect, b: seq<byte>): (r: Option<(Section, nat)>)
    ensures r.Some? ==> 2 <= r.value.1 <= |b| && b[..r.value.1] == Encode(r.value.0)
    ensures r.Some? ==> Belongs(d, r.value.0) && Short(r.value.0)
  {
    if |b| < 2 then None
    else if b[0] == 83 then
      var n: nat := b[1];
      if |b| < 2 + n then None else Some((Ssid(b[2..2 + n]), 2 + n))
    else if d.CScan? && b[0] == 67 then Some((Channel(b[1]), 2))
    else if d.CScan? && b[0] == 84 then Some((ScanType(b[1]), 2))
    else if d.BgScan? && b[0] == 82 then Some((Rssi(b[1]), 2))
    else if d.BgScan? && b[0] == 69 then Some((Repeat(b[1]), 2))
    else if |b| < 3 then None
    else
      var v := Joined(b[1], b[2]);
      if d.CScan? && b[0] == 80 then Some((PassiveDwell(v), 3))
      else if d.CScan? && b[0] == 72 then Some((HomeDwell(v), 3))
      else if d.BgScan? && b[0] == 84 then Some((Interval(v), 3))
      else None
  }

  function Decode(d: Dialect, b: seq<byte>): Option<seq<Section>> {
    if b == [] then Some([])
    else
      match DecodeOne(d, b)
      case None => None
      case Some((x, n)) =>
        match Decode(d, b[n..])
        case None => None
        case Some(xs) => Some([x] + xs)
  }

  lemma {:induction false} EncodeAppend(xs: seq<Section>, ys: seq<Section>)
    ensures EncodeAll(xs + ys) == EncodeAll(xs) + EncodeAll(ys)
  {
    hide Encode;
    if ys == [] {
      assert xs + ys == xs;
    } else {
      EncodeAppend(xs, DropLast(ys));
      assert DropLast(xs + ys) == xs + DropLast(ys);
      Associative(EncodeAll(xs), EncodeAll(DropLast(ys)), Encode(Last(ys)));
    }
  }

  lemma EncodeSingle(x: Section)
    ensures EncodeAll([x]) == Encode(x)
  {
    assert DropLast([x]) == [];
  }

  lemma DecodeSsid(d: Dialect, name: seq<byte>, rest: seq<byte>)
    requires |name| < 256
    ensures DecodeOne(d, Encode(Ssid(name)) + rest) == Some((Ssid(name), |name| + 2))
  {
    var b := Encode(Ssid(name)) + rest;
    assert b[0] == TAG_S && b[1] == |name| && b[2..2 + |name|] == name;
  }

  lemma DecodeByte(d: Dialect, x: Section, rest: seq<byte>)
    requires Belongs(d, x) && (x.Channel? || x.ScanType? || x.Rssi? || x.Repeat?)
    ensures DecodeOne(d, Encode(x) + rest) == Some((x, 2))
  {
    var b := Encode(x) + rest;
    assert b[0] == Encode(x)[0] && b[1] == Encode(x)[1];
  }

  lemma DecodeTwo(d: Dialect, x: Section, rest: seq<byte>)
    requires Belongs(d, x) && (x.PassiveDwell? || x.HomeDwell? || x.Interval?)
    ensures DecodeOne(d, Encode(x) + rest) == Some((x, 3))
  {
    hide Low, High, Joined;
    var b := Encode(x) + rest;
    var v := match x case PassiveDwell(ms) => ms case HomeDwell(ms) => ms case Interval(s) => s;
    assert b[0] == Encode(x)[0] && b[1] == Low(v) && b[2] == High(v);
    JoinedAgain(v);
  }

  lemma DecodeFirst(d: Dialect, x: Section, rest: seq<byte>)
    requires Belongs(d, x) && Short(x)
    ensures DecodeOne(d, Encode(x) + rest) == Some((x, |Encode(x)|))
  {
    hide DecodeOne;
    match x
    case Ssid(name) => DecodeSsid(d, name, rest);
    case PassiveDwell(_) => DecodeTwo(d, x, rest);
    case HomeDwell(_) => DecodeTwo(d, x, rest);
    case Interval(_) => DecodeTwo(d, x, rest);
    case _ => DecodeByte(d, x, rest);
  }

  /** Whatever sections a command carries, the decoder gets them back. */
  lemma {:induction false} RoundTrip(d: Dialect, xs: seq<Section>)
    requires Speaks(d, xs) && AllShort(xs)
    ensures Decode(d, EncodeAll(xs)) == Some(xs)
  {
    if xs != [] {
      var x, ys := xs[0], xs[1..];
      assert xs == [x] + ys;
      EncodeAppend([x], ys);
      EncodeSingle(x);
      DecodeFirst(d, x, EncodeAll(ys));
      RoundTrip(d, ys);
      assert EncodeAll(xs)[|Encode(x)|..] == EncodeAll(ys);
    }
  }

  /** Whatever bytes decode, decode to sections that encode to them. */
  lemma {:induction false} DecodeThenEncode(d: Dialect, b: seq<byte>)
    requires Decode(d, b).Some?
    ensures EncodeAll(Decode(d, b).value) == b
    ensures Speaks(d, Decode(d, b).value) && AllShort(Decode(d, b).value)
    decreases |b|
  {
    hide Encode, DecodeOne, Belongs, Short;
    if b != [] {
      var (x, n) := DecodeOne(d, b).value;
      DecodeThenEncode(d, b[n..]);
      EncodeAppend([x], Decode(d, b[n..]).value);
      EncodeSingle(x);
      assert b == b[..n] + b[n..];
    }
  }

  /** The decoder gets a command's sections back exactly when every SSID fits its length byte. */
  lemma RoundTripIff(d: Dialect, xs: seq<Section>)
    requires Speaks(d, xs)
    ensures Decode(d, EncodeAll(xs)) == Some(xs) <==> AllShort(xs)
  {
    if AllShort(xs) {
      RoundTrip(d, xs);
    } else if Decode(d, EncodeAll(xs)).Some? {
      DecodeThenEncode(d, EncodeAll(xs));
    }
  }
}
