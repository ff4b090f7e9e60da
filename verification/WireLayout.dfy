/**
 The wire formats byte by byte, in numbers: what the encoders write at each offset and what the
 parser accepts, stated without the codec's own constants and helpers.
 */
module WireLayout {
  import opened Primitives
  import opened Protocol

  /** The big-endian number in two bytes, and in four. */
  function Number16(b: Bytes, i: nat): nat
    requires i + 2 <= |b|
  {
    var hi: int, lo: int := b[i], b[i + 1];
    hi * 256 + lo
  }

  function Number32(b: Bytes, i: nat): nat
    requires i + 4 <= |b|
  {
    var b0: int, b1: int, b2: int, b3: int := b[i], b[i + 1], b[i + 2], b[i + 3];
    b0 * 16777216 + b1 * 65536 + b2 * 256 + b3
  }

  /** "LC02" and "LC03" in ASCII. */
  predicate StartsShort(b: Bytes) {
    |b| >= 4 && b[0] == 0x4C && b[1] == 0x43 && b[2] == 0x30 && b[3] == 0x32
  }

  predicate StartsFragment(b: Bytes) {
    |b| >= 4 && b[0] == 0x4C && b[1] == 0x43 && b[2] == 0x30 && b[3] == 0x33
  }

  lemma FromBytes16(b: Bytes, i: nat)
    requires i + 2 <= |b|
    ensures U16FromBytes(b[i..i + 2]) == Number16(b, i)
  {
  }

  lemma FromBytes32(b: Bytes, i: nat)
    requires i + 4 <= |b|
    ensures U32FromBytes(b[i..i + 4]) == Number32(b, i)
  {
    var word := b[i..i + 4];
    FromBytes16(word, 0);
    FromBytes16(word, 2);
    assert word[..2] == word[0..2] && word[2..] == word[2..4];
  }

  lemma Magics(b: Bytes)
    requires |b| >= 4
    ensures U32FromBytes(b[..4]) == MAGIC_SHORT <==> StartsShort(b)
    ensures U32FromBytes(b[..4]) == MAGIC_FRAGMENT <==> StartsFragment(b)
  {
    FromBytes32(b, 0);
    assert b[0..4] == b[..4];
  }

  /** A short message: magic, number, channel, NUL, data. */
  lemma ShortLayout(sequenceNumber: u32, channel: Bytes, data: Bytes)
    ensures var b := EncodeShort(sequenceNumber, channel, data);
      && |b| == 9 + |channel| + |data| && StartsShort(b) && Number32(b, 4) == sequenceNumber
      && b[8..8 + |channel|] == channel && b[8 + |channel|] == 0 && b[9 + |channel|..] == data
  {
    var b := EncodeShort(sequenceNumber, channel, data);
    ShortFields(sequenceNumber, channel, data);
    EncodedShortSize(sequenceNumber, channel, data);
    Magics(b);
    FromBytes32(b, 4);
    assert b[8..8 + |channel|] == b[8..][..|channel|] && b[9 + |channel|..] == b[8..][|channel| + 1..];
    assert b[8 + |channel|] == b[8..][|channel|];
  }

  /** A fragment: magic, number, payload size, offset, fragment number, count, on number 0 channel and NUL, data. */
  lemma FragmentLayout(f: Fragment)
    ensures var b := EncodeFragment(f);
      && |b| >= 20 && StartsFragment(b)
      && Number32(b, 4) == f.sequenceNumber && Number32(b, 8) == f.payloadSize && Number32(b, 12) == f.fragmentOffset
      && Number16(b, 16) == f.fragmentNumber && Number16(b, 18) == f.nFragments
      && b[20..] == (if f.channel.Some? then f.channel.value + [0] else []) + f.data
  {
    var b := EncodeFragment(f);
    var rest := (if f.channel.Some? then f.channel.value + [0] else []) + f.data;
    assert b == EncodeHeader(f) + rest;
    HeaderFields(f, rest);
    EncodedSize(f);
    Magics(b);
    HeaderNumbers(b);
  }

  lemma HeaderNumbers(b: Bytes)
    requires |b| >= 20
    ensures U32FromBytes(b[4..8]) == Number32(b, 4) && U32FromBytes(b[8..12]) == Number32(b, 8)
    ensures U32FromBytes(b[12..16]) == Number32(b, 12)
    ensures U16FromBytes(b[16..18]) == Number16(b, 16) && U16FromBytes(b[18..20]) == Number16(b, 18)
  {
    FromBytes32(b, 4);
    FromBytes32(b, 8);
    FromBytes32(b, 12);
    FromBytes16(b, 16);
    FromBytes16(b, 18);
  }

  /** The bytes begin with a UTF-8 channel that its first NUL ends, at `p`. */
  predicate ChannelEndsAt(s: Bytes, p: nat) {
    p < |s| && s[p] == 0 && 0 !in s[..p] && ValidUtf8(s[..p])
  }

  lemma FirstNul(s: Bytes, p: nat)
    requires p < |s| && s[p] == 0 && 0 !in s[..p]
    ensures NulPosition(s) == Some(p)
  {
  }

  lemma ChannelParses(s: Bytes)
    ensures ParseChannel(s).Some? <==> exists p: nat :: ChannelEndsAt(s, p)
    ensures forall p: nat :: ChannelEndsAt(s, p) ==> ParseChannel(s) == Some((s[..p], s[p + 1..]))
  {
    forall p: nat | ChannelEndsAt(s, p)
      ensures ParseChannel(s) == Some((s[..p], s[p + 1..]))
    {
      FirstNul(s, p);
    }
    if ParseChannel(s).Some? {
      assert ChannelEndsAt(s, NulPosition(s).value);
    }
  }

  /** Which datagrams parse: the two magics, a whole header, and a channel where there must be one. */
  lemma ParsesExactly(b: Bytes)
    ensures ParseDatagram(b).Some? <==>
      || (StartsShort(b) && |b| >= 8 && exists p: nat :: ChannelEndsAt(b[8..], p))
      || (StartsFragment(b) && |b| >= 20 && (Number16(b, 16) == 0 ==> exists p: nat :: ChannelEndsAt(b[20..], p)))
  {
    if |b| >= 4 {
      Magics(b);
    }
    if |b| >= 8 {
      ChannelParses(b[8..]);
    }
    if |b| >= 20 {
      HeaderNumbers(b);
      ChannelParses(b[20..]);
    }
  }

  /** And what to: every field is the number at its offset. */
  lemma ParsedFields(b: Bytes)
    requires ParseDatagram(b).Some?
    ensures match ParseDatagram(b).value
      case Short(sequenceNumber, channel, data) =>
        && StartsShort(b) && |b| >= 8 && sequenceNumber == Number32(b, 4) && b[8..] == channel + [0] + data
        && 0 !in channel
      case Frag(f) =>
        && StartsFragment(b) && |b| >= 20
        && f.sequenceNumber == Number32(b, 4) && f.payloadSize == Number32(b, 8) && f.fragmentOffset == Number32(b, 12)
        && f.fragmentNumber == Number16(b, 16) && f.nFragments == Number16(b, 18)
        && (f.fragmentNumber == 0 <==> f.channel.Some?)
        && b[20..] == (if f.channel.Some? then f.channel.value + [0] else []) + f.data
        && (f.channel.Some? ==> 0 !in f.channel.value)
  {
    Magics(b);
    if StartsShort(b) {
      FromBytes32(b, 4);
      ParseChannelShape(b[8..]);
    } else {
      HeaderNumbers(b);
      if Number16(b, 16) == 0 {
        ParseChannelShape(b[20..]);
      }
    }
  }

  /** A short message as it stands on the wire: number 42, channel "T", data 1 and 2. */
  lemma Sample()
    ensures ParseDatagram([0x4C, 0x43, 0x30, 0x32, 0, 0, 0, 42, 0x54, 0, 1, 2]) == Some(Short(42, [0x54], [1, 2]))
  {
    var b: Bytes := [0x4C, 0x43, 0x30, 0x32, 0, 0, 0, 42, 0x54, 0, 1, 2];
    assert b[8..] == [0x54, 0, 1, 2];
    assert b[8..][..1] == [0x54] && Utf8CharLength([0x54]) == 1 && ValidUtf8(b[8..][..1]);
    assert ChannelEndsAt(b[8..], 1);
    ParsesExactly(b);
    ParsedFields(b);
    ChannelParses(b[8..]);
    Magics(b);
  }
}
