/** UTF-8 by its definition, section 3 of RFC 3629: the strings that the byte table of section 4 admits. */
module Utf8 {
  import opened Primitives

  /** The code points that UTF-8 encodes: all but the surrogates. */
  predicate Scalar(c: nat) {
    c < 0xD800 || 0xE000 <= c < 0x11_0000
  }

  function EncodeScalar(c: nat): (s: Bytes)
    requires Scalar(c)
    ensures 1 <= |s| <= 4
  {
    if c < 0x80 then [c]
    else if c < 0x800 then [0xC0 + c / 64, 0x80 + c % 64]
    else if c < 0x1_0000 then [0xE0 + c / 4096, 0x80 + c / 64 % 64, 0x80 + c % 64]
    else [0xF0 + c / 262144, 0x80 + c / 4096 % 64, 0x80 + c / 64 % 64, 0x80 + c % 64]
  }

  function EncodeScalars(cs: seq<nat>): Bytes
    requires forall i :: 0 <= i < |cs| ==> Scalar(cs[i])
  {
    if cs == [] then [] else EncodeScalar(cs[0]) + EncodeScalars(cs[1..])
  }

  lemma ScalarIsChar(c: nat, rest: Bytes)
    requires Scalar(c)
    ensures Utf8CharLength(EncodeScalar(c) + rest) == |EncodeScalar(c)|
  {
  }

  lemma CharIsScalar(s: Bytes) returns (c: nat)
    requires Utf8CharLength(s) > 0
    ensures Scalar(c) && s[..Utf8CharLength(s)] == EncodeScalar(c)
  {
    match Utf8CharLength(s) {
      case 1 => c := s[0];
      case 2 => c := TwoBytes(s[0], s[1]);
      case 3 => c := ThreeBytes(s[0], s[1], s[2]);
      case 4 => c := FourBytes(s[0], s[1], s[2], s[3]);
    }
  }

  lemma TwoBytes(a: byte, b: byte) returns (c: nat)
    requires 0xC2 <= a <= 0xDF && Tail(b)
    ensures Scalar(c) && EncodeScalar(c) == [a, b]
  {
    c := (a - 0xC0) * 64 + (b - 0x80);
    FourDigits(0, 0, a - 0xC0, b - 0x80);
  }

  lemma ThreeBytes(a: byte, b: byte, d: byte) returns (c: nat)
    requires 0xE0 <= a <= 0xEF && Tail(b) && Tail(d) && (a == 0xE0 ==> b >= 0xA0) && (a == 0xED ==> b <= 0x9F)
    ensures Scalar(c) && EncodeScalar(c) == [a, b, d]
  {
    c := (a - 0xE0) * 4096 + (b - 0x80) * 64 + (d - 0x80);
    FourDigits(0, a - 0xE0, b - 0x80, d - 0x80);
  }

  lemma Digit64(h: nat, l: nat)
    requires l < 64
    ensures (h * 64 + l) / 64 == h && (h * 64 + l) % 64 == l
  {
  }

  lemma Digit4096(h: nat, l: nat)
    requires l < 4096
    ensures (h * 4096 + l) / 4096 == h
  {
  }

  lemma Digit262144(h: nat, l: nat)
    requires l < 262144
    ensures (h * 262144 + l) / 262144 == h
  {
  }

  /** Four digits in base 64. */
  lemma FourDigits(x: nat, y: nat, z: nat, w: nat)
    requires y < 64 && z < 64 && w < 64
    ensures var c := x * 262144 + y * 4096 + z * 64 + w;
      c / 262144 == x && c / 4096 % 64 == y && c / 64 % 64 == z && c % 64 == w
  {
    Digit262144(x, y * 4096 + z * 64 + w);
    Digit4096(x * 64 + y, z * 64 + w);
    Digit64(x, y);
    Digit64(x * 4096 + y * 64 + z, w);
    Digit64(x * 64 + y, z);
  }

  lemma FourBytes(a: byte, b: byte, d: byte, e: byte) returns (c: nat)
    requires 0xF0 <= a <= 0xF4 && Tail(b) && Tail(d) && Tail(e)
    requires (a == 0xF0 ==> b >= 0x90) && (a == 0xF4 ==> b <= 0x8F)
    ensures Scalar(c) && EncodeScalar(c) == [a, b, d, e]
  {
    c := (a - 0xF0) * 262144 + (b - 0x80) * 4096 + (d - 0x80) * 64 + (e - 0x80);
    FourDigits(a - 0xF0, b - 0x80, d - 0x80, e - 0x80);
  }

  lemma {:induction false} ScalarsAreValid(cs: seq<nat>)
    requires forall i :: 0 <= i < |cs| ==> Scalar(cs[i])
    ensures ValidUtf8(EncodeScalars(cs))
  {
    if cs == [] {
    } else {
      var head, rest := EncodeScalar(cs[0]), EncodeScalars(cs[1..]);
      ScalarIsChar(cs[0], rest);
      assert (head + rest)[|head|..] == rest;
      ScalarsAreValid(cs[1..]);
    }
  }

  lemma OneMoreScalar(c: nat, rest: seq<nat>)
    requires Scalar(c) && forall i :: 0 <= i < |rest| ==> Scalar(rest[i])
    ensures forall i :: 0 <= i < |[c] + rest| ==> Scalar(([c] + rest)[i])
    ensures EncodeScalars([c] + rest) == EncodeScalar(c) + EncodeScalars(rest)
  {
    assert ([c] + rest)[1..] == rest;
  }

  lemma FrontScalar(s: Bytes) returns (c: nat, n: nat)
    requires s != [] && ValidUtf8(s)
    ensures 0 < n <= |s| && Scalar(c) && s[..n] == EncodeScalar(c) && ValidUtf8(s[n..])
  {
    n := Utf8CharLength(s);
    c := CharIsScalar(s);
  }

  lemma {:induction false} ValidIsScalars(s: Bytes) returns (cs: seq<nat>)
    requires ValidUtf8(s)
    ensures (forall i :: 0 <= i < |cs| ==> Scalar(cs[i])) && EncodeScalars(cs) == s
  {
    if s == [] {
      cs := [];
    } else {
      var c, n := FrontScalar(s);
      var rest := ValidIsScalars(s[n..]);
      OneMoreScalar(c, rest);
      assert s == s[..n] + s[n..];
      cs := [c] + rest;
    }
  }

  /** A byte string is valid UTF-8 exactly when it is the encoding of some code points. */
  lemma ValidUtf8Exactly(s: Bytes)
    ensures ValidUtf8(s) <==> exists cs: seq<nat> ::
      (forall i :: 0 <= i < |cs| ==> Scalar(cs[i])) && EncodeScalars(cs) == s
  {
    if ValidUtf8(s) {
      var cs := ValidIsScalars(s);
    }
    if cs: seq<nat> :| (forall i :: 0 <= i < |cs| ==> Scalar(cs[i])) && EncodeScalars(cs) == s {
      ScalarsAreValid(cs);
    }
  }
}
