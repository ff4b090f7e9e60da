/** The LCM wire formats: short messages (magic "LC02") and fragments (magic "LC03"). */
module Protocol {
  import opened Primitives

  const MAGIC_SHORT: u32 := 0x4c43_3032
  const MAGIC_FRAGMENT: u32 := 0x4c43_3033
  const SHORT_HEADER_SIZE := 8
  const FRAGMENT_HEADER_SIZE := 20

  datatype Fragment = Fragment(
    sequenceNumber: u32,
    payloadSize: u32,
    fragmentOffset: u32,
    fragmentNumber: u16,
    nFragments: u16,
    channel: Option<Bytes>,
    data: Bytes)

  datatype Packet =
    | Short(sequenceNumber: u32, channel: Bytes, data: Bytes)
    | Frag(fragment: Fragment)

  // ----- parsing -----

  function ParseDatagram(buf: Bytes): Option<Packet> {
    if |buf| < 4 then None
    else
      var magic := U32FromBytes(buf[..4]);
      if magic == MAGIC_SHORT then ParseShortMessage(buf)
      else if magic == MAGIC_FRAGMENT then ParseFragment(buf)
      else None
  }

  function ParseShortMessage(buf: Bytes): Option<Packet> {
    if |buf| < SHORT_HEADER_SIZE then None
    else
      var sequenceNumber := U32FromBytes(buf[4..8]);
      match ParseChannel(buf[SHORT_HEADER_SIZE..])
      case None => None
      case Some((channel, data)) => Some(Short(sequenceNumber, channel, data))
  }

  function ParseFragment(buf: Bytes): Option<Packet> {
    if |buf| < FRAGMENT_HEADER_SIZE then None
    else
      var header := Fragment(
        U32FromBytes(buf[4..8]), U32FromBytes(buf[8..12]), U32FromBytes(buf[12..16]),
        U16FromBytes(buf[16..18]), U16FromBytes(buf[18..20]), None, []);
      var rest := buf[FRAGMENT_HEADER_SIZE..];
      if header.fragmentNumber == 0 then
        match ParseChannel(rest)
        case None => None
        case Some((channel, data)) => Some(Frag(header.(channel := Some(channel), data := data)))
      else
        Some(Frag(header.(data := rest)))
  }

  /** Splits `channel NUL data`; fails without a NUL or when the channel is not UTF-8. */
  function ParseChannel(s: Bytes): Option<(Bytes, Bytes)> {
    match NulPosition(s)
    case None => None
    case Some(p) => if ValidUtf8(s[..p]) then Some((s[..p], s[p + 1..])) else None
  }

  // ----- encoding -----

  function EncodeShort(sequenceNumber: u32, channel: Bytes, data: Bytes): Bytes {
    U32ToBytes(MAGIC_SHORT) + U32ToBytes(sequenceNumber) + channel + [0] + data
  }

  function EncodeHeader(f: Fragment): (h: Bytes)
    ensures |h| == FRAGMENT_HEADER_SIZE
  {
    U32ToBytes(MAGIC_FRAGMENT) + U32ToBytes(f.sequenceNumber) + U32ToBytes(f.payloadSize)
    + U32ToBytes(f.fragmentOffset) + U16ToBytes(f.fragmentNumber) + U16ToBytes(f.nFragments)
  }

  function EncodeFragment(f: Fragment): Bytes {
    EncodeHeader(f) + (if f.channel.Some? then f.channel.value + [0] else []) + f.data
  }

  function Encode(p: Packet): Bytes {
    match p
    case Short(sequenceNumber, channel, data) => EncodeShort(sequenceNumber, channel, data)
    case Frag(f) => EncodeFragment(f)
  }

  /** A growable byte buffer that is cleared and refilled for every datagram (Rust's `Vec<u8>`). */
  class ByteVec {
    var bytes: Bytes

    constructor ()
      ensures bytes == []
    {
      bytes := [];
    }

    method Clear()
      modifies this
      ensures bytes == []
    {
      bytes := [];
    }

    method ExtendFromSlice(s: Bytes)
      modifies this
      ensures bytes == old(bytes) + s
    {
      bytes := bytes + s;
    }

    method Push(b: byte)
      modifies this
      ensures bytes == old(bytes) + [b]
    {
      bytes := bytes + [b];
    }
  }

  method EncodeShortMessageInto(buf: ByteVec, sequenceNumber: u32, channel: Bytes, data: Bytes)
    modifies buf
    ensures buf.bytes == EncodeShort(sequenceNumber, channel, data)
  {
    buf.Clear();
    buf.ExtendFromSlice(U32ToBytes(MAGIC_SHORT));
    buf.ExtendFromSlice(U32ToBytes(sequenceNumber));
    buf.ExtendFromSlice(channel);
    buf.Push(0);
    buf.ExtendFromSlice(data);
  }

  method EncodeFragmentInto(
      buf: ByteVec, sequenceNumber: u32, payloadSize: u32, fragmentOffset: u32,
      fragmentNumber: u16, nFragments: u16, channel: Option<Bytes>, data: Bytes)
    modifies buf
    ensures buf.bytes == EncodeFragment(
      Fragment(sequenceNumber, payloadSize, fragmentOffset, fragmentNumber, nFragments, channel, data))
  {
    buf.Clear();
    buf.ExtendFromSlice(U32ToBytes(MAGIC_FRAGMENT));
    buf.ExtendFromSlice(U32ToBytes(sequenceNumber));
    buf.ExtendFromSlice(U32ToBytes(payloadSize));
    buf.ExtendFromSlice(U32ToBytes(fragmentOffset));
    buf.ExtendFromSlice(U16ToBytes(fragmentNumber));
    buf.ExtendFromSlice(U16ToBytes(nFragments));
    ghost var header := buf.bytes;
    if channel.Some? {
      buf.ExtendFromSlice(channel.value);
      buf.Push(0);
    }
    assert buf.bytes == header + (if channel.Some? then channel.value + [0] else []);
    buf.ExtendFromSlice(data);
  }

  lemma EncodedShortSize(sequenceNumber: u32, channel: Bytes, data: Bytes)
    ensures |EncodeShort(sequenceNumber, channel, data)| == 9 + |channel| + |data|
  {
  }

  lemma EncodedSize(f: Fragment)
    ensures |EncodeFragment(f)|
      == FRAGMENT_HEADER_SIZE + (if f.channel.Some? then |f.channel.value| + 1 else 0) + |f.data|
  {
  }

  // ----- the two directions of the wire bijection -----

  /** What the wire can carry: a UTF-8 channel without NUL, on fragments exactly for number 0. */
  predicate WireShaped(p: Packet) {
    match p
    case Short(_, channel, _) => ChannelOnWire(channel)
    case Frag(f) =>
      && (f.fragmentNumber == 0 <==> f.channel.Some?)
      && (f.channel.Some? ==> ChannelOnWire(f.channel.value))
  }

  predicate ChannelOnWire(channel: Bytes) {
    ValidUtf8(channel) && 0 !in channel
  }

  lemma ParseChannelOfEncoding(channel: Bytes, data: Bytes)
    requires ChannelOnWire(channel)
    ensures ParseChannel(channel + [0] + data) == Some((channel, data))
  {
    var s := channel + [0] + data;
    NulPositionTerminates(channel, data);
    assert s[..|channel|] == channel && s[|channel| + 1..] == data;
  }

  lemma ParseChannelShape(s: Bytes)
    requires ParseChannel(s).Some?
    ensures var (channel, data) := ParseChannel(s).value;
      ChannelOnWire(channel) && channel + [0] + data == s
  {
  }

  lemma HeaderFields(f: Fragment, rest: Bytes)
    ensures var buf := EncodeHeader(f) + rest;
      && U32FromBytes(buf[..4]) == MAGIC_FRAGMENT
      && U32FromBytes(buf[4..8]) == f.sequenceNumber
      && U32FromBytes(buf[8..12]) == f.payloadSize
      && U32FromBytes(buf[12..16]) == f.fragmentOffset
      && U16FromBytes(buf[16..18]) == f.fragmentNumber
      && U16FromBytes(buf[18..20]) == f.nFragments
      && buf[20..] == rest
  {
    var buf := EncodeHeader(f) + rest;
    assert buf[..4] == U32ToBytes(MAGIC_FRAGMENT);
    assert buf[4..8] == U32ToBytes(f.sequenceNumber);
    assert buf[8..12] == U32ToBytes(f.payloadSize);
    assert buf[12..16] == U32ToBytes(f.fragmentOffset);
    assert buf[16..18] == U16ToBytes(f.fragmentNumber);
    assert buf[18..20] == U16ToBytes(f.nFragments);
    U32Encoded(MAGIC_FRAGMENT);
    U32Encoded(f.sequenceNumber);
    U32Encoded(f.payloadSize);
    U32Encoded(f.fragmentOffset);
    U16Encoded(f.fragmentNumber);
    U16Encoded(f.nFragments);
  }

  lemma ShortFields(sequenceNumber: u32, channel: Bytes, data: Bytes)
    ensures var buf := EncodeShort(sequenceNumber, channel, data);
      && U32FromBytes(buf[..4]) == MAGIC_SHORT
      && U32FromBytes(buf[4..8]) == sequenceNumber
      && buf[8..] == channel + [0] + data
  {
    var buf := EncodeShort(sequenceNumber, channel, data);
    assert buf[..4] == U32ToBytes(MAGIC_SHORT);
    assert buf[4..8] == U32ToBytes(sequenceNumber);
    U32Encoded(MAGIC_SHORT);
    U32Encoded(sequenceNumber);
  }

  lemma EncodeShortSplit(sequenceNumber: u32, channel: Bytes, data: Bytes)
    ensures EncodeShort(sequenceNumber, channel, data)
      == U32ToBytes(MAGIC_SHORT) + U32ToBytes(sequenceNumber) + (channel + [0] + data)
  {
  }

  lemma ParsedShort(buf: Bytes)
    requires |buf| >= 4 && U32FromBytes(buf[..4]) == MAGIC_SHORT && ParseShortMessage(buf).Some?
    ensures WireShaped(ParseShortMessage(buf).value) && Encode(ParseShortMessage(buf).value) == buf
  {
    U32Decoded(buf[..4]);
    U32Decoded(buf[4..8]);
    ParseChannelShape(buf[8..]);
    var (channel, data) := ParseChannel(buf[8..]).value;
    EncodeShortSplit(U32FromBytes(buf[4..8]), channel, data);
    assert buf == buf[..4] + buf[4..8] + buf[8..];
  }

  lemma ParsedHeader(buf: Bytes, f: Fragment)
    requires |buf| >= 20 && U32FromBytes(buf[..4]) == MAGIC_FRAGMENT
    requires f.sequenceNumber == U32FromBytes(buf[4..8]) && f.payloadSize == U32FromBytes(buf[8..12])
    requires f.fragmentOffset == U32FromBytes(buf[12..16])
    requires f.fragmentNumber == U16FromBytes(buf[16..18]) && f.nFragments == U16FromBytes(buf[18..20])
    ensures EncodeHeader(f) == buf[..20]
  {
    U32Decoded(buf[..4]);
    U32Decoded(buf[4..8]);
    U32Decoded(buf[8..12]);
    U32Decoded(buf[12..16]);
    U16Decoded(buf[16..18]);
    U16Decoded(buf[18..20]);
    assert buf[..20] == buf[..4] + buf[4..8] + buf[8..12] + buf[12..16] + buf[16..18] + buf[18..20];
  }

  lemma ParsedFragment(buf: Bytes)
    requires |buf| >= 4 && U32FromBytes(buf[..4]) == MAGIC_FRAGMENT && ParseFragment(buf).Some?
    ensures WireShaped(ParseFragment(buf).value) && Encode(ParseFragment(buf).value) == buf
  {
    var f := ParseFragment(buf).value.fragment;
    ParsedHeader(buf, f);
    assert buf == buf[..20] + buf[20..];
    if f.fragmentNumber == 0 {
      ParseChannelShape(buf[20..]);
      assert buf[..20] + (f.channel.value + [0] + f.data) == buf[..20] + (f.channel.value + [0]) + f.data;
    }
  }

  /** Every parsed packet is one the wire can carry, and re-encoding it gives the exact bytes back. */
  lemma EncodeInvertsParse(buf: Bytes)
    requires ParseDatagram(buf).Some?
    ensures WireShaped(ParseDatagram(buf).value)
    ensures Encode(ParseDatagram(buf).value) == buf
  {
    if U32FromBytes(buf[..4]) == MAGIC_SHORT {
      ParsedShort(buf);
    } else {
      ParsedFragment(buf);
    }
  }

  lemma ParseEncodedShort(sequenceNumber: u32, channel: Bytes, data: Bytes)
    requires ChannelOnWire(channel)
    ensures ParseDatagram(EncodeShort(sequenceNumber, channel, data)) == Some(Short(sequenceNumber, channel, data))
  {
    ShortFields(sequenceNumber, channel, data);
    ParseChannelOfEncoding(channel, data);
  }

  lemma ParseEncodedFragment(f: Fragment)
    requires WireShaped(Frag(f))
    ensures ParseDatagram(EncodeFragment(f)) == Some(Frag(f))
  {
    var tail := (if f.channel.Some? then f.channel.value + [0] else []) + f.data;
    assert EncodeFragment(f) == EncodeHeader(f) + tail;
    HeaderFields(f, tail);
    if f.fragmentNumber == 0 {
      ParseChannelOfEncoding(f.channel.value, f.data);
    }
  }

  /** Parsing undoes both encoders on exactly the packets the wire can carry. */
  lemma ParseInvertsEncode(p: Packet)
    ensures ParseDatagram(Encode(p)) == Some(p) <==> WireShaped(p)
  {
    if WireShaped(p) {
      match p
      case Short(sequenceNumber, channel, data) => ParseEncodedShort(sequenceNumber, channel, data);
      case Frag(f) => ParseEncodedFragment(f);
    } else if ParseDatagram(Encode(p)) == Some(p) {
      EncodeInvertsParse(Encode(p));
    }
  }

  /** No two datagrams parse to the same packet, and no byte string is in both formats. */
  lemma ParseInjective(a: Bytes, b: Bytes)
    requires ParseDatagram(a).Some? && ParseDatagram(a) == ParseDatagram(b)
    ensures a == b
  {
    EncodeInvertsParse(a);
    EncodeInvertsParse(b);
  }

  lemma FormatsDisjoint(sequenceNumber: u32, channel: Bytes, data: Bytes, f: Fragment)
    ensures EncodeShort(sequenceNumber, channel, data) != EncodeFragment(f)
  {
    ShortFields(sequenceNumber, channel, data);
    var tail := (if f.channel.Some? then f.channel.value + [0] else []) + f.data;
    assert EncodeFragment(f) == EncodeHeader(f) + tail;
    HeaderFields(f, tail);
  }

  lemma NulMovesBoundary(sequenceNumber: u32, a: Bytes, b: Bytes, data: Bytes)
    ensures EncodeShort(sequenceNumber, a + [0] + b, data) == EncodeShort(sequenceNumber, a, b + [0] + data)
  {
    EncodeShortSplit(sequenceNumber, a + [0] + b, data);
    EncodeShortSplit(sequenceNumber, a, b + [0] + data);
    assert a + [0] + b + [0] + data == a + [0] + (b + [0] + data);
  }

  lemma CutParses(sequenceNumber: u32, channel: Bytes, a: Bytes, b: Bytes, data: Bytes)
    requires channel == a + [0] + b && ChannelOnWire(a)
    ensures ParseDatagram(EncodeShort(sequenceNumber, channel, data)) == Some(Short(sequenceNumber, a, b + [0] + data))
  {
    NulMovesBoundary(sequenceNumber, a, b, data);
    ParseEncodedShort(sequenceNumber, a, b + [0] + data);
  }

  lemma SplitAtNul(channel: Bytes, p: nat)
    requires p < |channel| && channel[p] == 0
    ensures channel == channel[..p] + [0] + channel[p + 1..]
  {
  }

  /** A channel holding a NUL is cut there, and its remainder moves to the front of the payload. */
  lemma NulCutsChannel(sequenceNumber: u32, channel: Bytes, data: Bytes)
    requires ValidUtf8(channel) && 0 in channel
    ensures var p := NulPosition(channel).value;
      ParseDatagram(EncodeShort(sequenceNumber, channel, data))
      == Some(Short(sequenceNumber, channel[..p], channel[p + 1..] + [0] + data))
  {
    var p := NulPosition(channel).value;
    ValidUtf8BeforeNul(channel, p);
    SplitAtNul(channel, p);
    CutParses(sequenceNumber, channel, channel[..p], channel[p + 1..], data);
  }

  /** What is left of a fragment whose channel holds a NUL: the rest of the channel leads its data. */
  function CutAtNul(f: Fragment): Fragment
    requires f.channel.Some? && 0 in f.channel.value
  {
    var channel := f.channel.value;
    var p := NulPosition(channel).value;
    f.(channel := Some(channel[..p]), data := channel[p + 1..] + [0] + f.data)
  }

  lemma CutEncodesAlike(f: Fragment, a: Bytes, b: Bytes)
    requires f.channel == Some(a + [0] + b)
    ensures EncodeFragment(f) == EncodeFragment(f.(channel := Some(a), data := b + [0] + f.data))
  {
    var cut := f.(channel := Some(a), data := b + [0] + f.data);
    assert EncodeFragment(f) == EncodeHeader(f) + (a + [0] + b + [0] + f.data);
    assert EncodeFragment(cut) == EncodeHeader(f) + (a + [0] + (b + [0] + f.data));
    assert a + [0] + b + [0] + f.data == a + [0] + (b + [0] + f.data);
  }

  /** So does a fragment's: its data grows at the front, but not its offset. */
  lemma NulCutsFragment(f: Fragment)
    requires f.fragmentNumber == 0 && f.channel.Some? && ValidUtf8(f.channel.value) && 0 in f.channel.value
    ensures ParseDatagram(EncodeFragment(f)) == Some(Frag(CutAtNul(f)))
  {
    var channel := f.channel.value;
    var p := NulPosition(channel).value;
    ValidUtf8BeforeNul(channel, p);
    SplitAtNul(channel, p);
    CutEncodesAlike(f, channel[..p], channel[p + 1..]);
    ParseEncodedFragment(CutAtNul(f));
  }
}
