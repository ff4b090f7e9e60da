/** Machine integers, byte strings and the library operations the wire protocol relies on. */
module Primitives {

  type byte = n: int | 0 <= n < 0x100
  type u16 = n: int | 0 <= n < 0x1_0000
  type u32 = n: int | 0 <= n < 0x1_0000_0000

  const U16_COUNT := 0x1_0000
  const U32_COUNT := 0x1_0000_0000
  const USIZE_MAX := 0xFFFF_FFFF_FFFF_FFFF

  type Bytes = seq<byte>

  datatype Option<+T> = None | Some(value: T)

  function DropLast<T>(s: seq<T>): seq<T>
    requires s != []
  {
    s[..|s| - 1]
  }

  function Last<T>(s: seq<T>): T
    requires s != []
  {
    s[|s| - 1]
  }

  function Min(a: int, b: int): int {
    if a <= b then a else b
  }

  /** `usize::saturating_sub` (and its `u32` twin). */
  function SaturatingSub(a: nat, b: nat): nat {
    if a <= b then 0 else a - b
  }

  lemma SmallModulo(n: nat)
    requires n < U32_COUNT
    ensures n % U32_COUNT == n
  {
  }

  lemma NextModulo(n: nat)
    ensures (n % U32_COUNT + 1) % U32_COUNT == (n + 1) % U32_COUNT
  {
  }

  function Zeros(n: nat): (z: Bytes)
    ensures |z| == n && forall i :: 0 <= i < n ==> z[i] == 0
  {
    seq(n, _ => 0)
  }

  // ----- big-endian integers -----

  function U16ToBytes(x: u16): (b: Bytes)
    ensures |b| == 2
  {
    [x / 0x100, x % 0x100]
  }

  function U16FromBytes(b: Bytes): u16
    requires |b| == 2
  {
    var hi: int, lo: int := b[0], b[1];
    hi * 0x100 + lo
  }

  function U32ToBytes(x: u32): (b: Bytes)
    ensures |b| == 4
  {
    U16ToBytes(x / 0x1_0000) + U16ToBytes(x % 0x1_0000)
  }

  function U32FromBytes(b: Bytes): u32
    requires |b| == 4
  {
    var hi: int, lo: int := U16FromBytes(b[..2]), U16FromBytes(b[2..]);
    hi * 0x1_0000 + lo
  }

  lemma U16Encoded(x: u16)
    ensures U16FromBytes(U16ToBytes(x)) == x
  {
  }

  lemma U16Decoded(b: Bytes)
    requires |b| == 2
    ensures U16ToBytes(U16FromBytes(b)) == b
  {
  }

  lemma Digits(hi: u16, lo: u16)
    ensures (hi * 0x1_0000 + lo) / 0x1_0000 == hi && (hi * 0x1_0000 + lo) % 0x1_0000 == lo
  {
  }

  lemma U32Encoded(x: u32)
    ensures U32FromBytes(U32ToBytes(x)) == x
  {
    var hi, lo := U16ToBytes(x / 0x1_0000), U16ToBytes(x % 0x1_0000);
    assert U32ToBytes(x)[..2] == hi && U32ToBytes(x)[2..] == lo;
    U16Encoded(x / 0x1_0000);
    U16Encoded(x % 0x1_0000);
  }

  lemma U32Decoded(b: Bytes)
    requires |b| == 4
    ensures U32ToBytes(U32FromBytes(b)) == b
  {
    Digits(U16FromBytes(b[..2]), U16FromBytes(b[2..]));
    U16Decoded(b[..2]);
    U16Decoded(b[2..]);
    assert b == b[..2] + b[2..];
  }

  // ----- NUL-terminated strings -----

  /** `iter().position(|&b| b == 0)`: the index of the first NUL. */
  function NulPosition(s: Bytes): (p: Option<nat>)
    ensures p.None? <==> 0 !in s
    ensures p.Some? ==> p.value < |s| && s[p.value] == 0 && 0 !in s[..p.value]
  {
    if s == [] then None
    else if s[0] == 0 then Some(0)
    else match NulPosition(s[1..])
      case None => None
      case Some(p) =>
        assert s[..p + 1] == [s[0]] + s[1..][..p];
        Some(p + 1)
  }

  /** The first NUL of `channel NUL rest` ends the channel exactly when the channel has none. */
  lemma {:induction false} NulPositionTerminates(channel: Bytes, rest: Bytes)
    requires 0 !in channel
    ensures NulPosition(channel + [0] + rest) == Some(|channel|)
  {
    if channel == [] {
    } else {
      assert channel[0] in channel;
      assert (channel + [0] + rest)[1..] == channel[1..] + [0] + rest;
      NulPositionTerminates(channel[1..], rest);
    }
  }

  // ----- UTF-8, section 4 of RFC 3629 -----

  predicate Tail(b: byte) {
    0x80 <= b <= 0xBF
  }

  /** Length of the well-formed character at the front of `s`, or 0 if there is none. */
  function Utf8CharLength(s: Bytes): (n: nat)
    ensures n <= |s|
  {
    if s == [] then 0
    else if s[0] <= 0x7F then 1
    else if |s| < 2 then 0
    else if 0xC2 <= s[0] <= 0xDF && Tail(s[1]) then 2
    else if |s| < 3 || !Tail(s[2]) then 0
    else if s[0] == 0xE0 && 0xA0 <= s[1] <= 0xBF then 3
    else if (0xE1 <= s[0] <= 0xEC || 0xEE <= s[0] <= 0xEF) && Tail(s[1]) then 3
    else if s[0] == 0xED && 0x80 <= s[1] <= 0x9F then 3
    else if |s| < 4 || !Tail(s[3]) then 0
    else if s[0] == 0xF0 && 0x90 <= s[1] <= 0xBF then 4
    else if 0xF1 <= s[0] <= 0xF3 && Tail(s[1]) then 4
    else if s[0] == 0xF4 && 0x80 <= s[1] <= 0x8F then 4
    else 0
  }

  predicate ValidUtf8(s: Bytes) {
    s == [] || (Utf8CharLength(s) > 0 && ValidUtf8(s[Utf8CharLength(s)..]))
  }

  lemma CharBeforeNul(s: Bytes, p: nat)
    requires Utf8CharLength(s) > 0 && 0 < p < |s| && s[p] == 0 && forall j :: 0 <= j < p ==> s[j] != 0
    ensures Utf8CharLength(s) <= p && Utf8CharLength(s[..p]) == Utf8CharLength(s)
  {
  }

  /** Cutting a valid string just before its first NUL leaves a valid string. */
  lemma {:induction false} ValidUtf8BeforeNul(s: Bytes, p: nat)
    requires ValidUtf8(s) && p < |s| && s[p] == 0 && 0 !in s[..p]
    ensures ValidUtf8(s[..p])
  {
    if p == 0 {
    } else {
      var n := Utf8CharLength(s);
      assert forall j :: 0 <= j < p ==> s[j] in s[..p];
      CharBeforeNul(s, p);
      assert s[n..][..p - n] == s[..p][n..];
      ValidUtf8BeforeNul(s[n..], p - n);
    }
  }
}
