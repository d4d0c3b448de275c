/** The byte tests on paths accept exactly the UTF-8 encodings of sequences of Unicode scalar values. */
module Unicode {
  import opened Bits
  import opened Records

  /** A code point that is no surrogate. */
  predicate Scalar(c: nat) { c < 0xD800 || 0xE000 <= c < 0x110000 }

  /** The encoding of section 3 of RFC 3629: six bits to a continuation byte. */
  function EncodeChar(c: nat): (s: seq<byte>)
    requires Scalar(c)
    ensures 1 <= |s| <= 4
  {
    if c < 0x80 then [c]
    else if c < 0x800 then [0xC0 + c / 64, 0x80 + c % 64]
    else if c < 0x10000 then [0xE0 + c / 4096, 0x80 + c / 64 % 64, 0x80 + c % 64]
    else [0xF0 + c / 262144, 0x80 + c / 4096 % 64, 0x80 + c / 64 % 64, 0x80 + c % 64]
  }

  function EncodeText(cs: seq<nat>): seq<byte>
    requires forall i :: 0 <= i < |cs| ==> Scalar(cs[i])
  {
    if cs == [] then [] else EncodeChar(cs[0]) + EncodeText(cs[1..])
  }

  /** The encoding of a scalar value is taken as one character, whatever follows. */
  lemma CharTaken(c: nat, rest: seq<byte>)
    requires Scalar(c)
    ensures CharLength(EncodeChar(c) + rest) == |EncodeChar(c)|
  {
  }

  lemma TwoBytes(x: nat, y: nat) returns (c: nat)
    requires 2 <= x < 32 && y < 64
    ensures Scalar(c) && EncodeChar(c) == [0xC0 + x, 0x80 + y]
  {
    c := 64 * x + y;
  }

  lemma ThreeBytes(x: nat, y: nat, z: nat) returns (c: nat)
    requires x < 16 && y < 64 && z < 64 && (x == 0 ==> y >= 32) && (x == 13 ==> y < 32)
    ensures Scalar(c) && EncodeChar(c) == [0xE0 + x, 0x80 + y, 0x80 + z]
  {
    c := 64 * (64 * x + y) + z;
    assert c / 64 == 64 * x + y;
  }

  lemma FourBytes(w: nat, x: nat, y: nat, z: nat) returns (c: nat)
    requires w <= 4 && x < 64 && y < 64 && z < 64 && (w == 0 ==> x >= 16) && (w == 4 ==> x < 16)
    ensures Scalar(c) && EncodeChar(c) == [0xF0 + w, 0x80 + x, 0x80 + y, 0x80 + z]
  {
    var d := 64 * w + x;
    var e := 64 * d + y;
    c := 64 * e + z;
    assert c / 64 == e && e / 64 == d && d / 64 == w;
    assert c / 4096 == d && c / 262144 == w;
  }

  /** What is taken as one character is the encoding of a scalar value. */
  lemma CharIs(s: seq<byte>) returns (c: nat)
    requires CharLength(s) > 0
    ensures Scalar(c) && EncodeChar(c) == s[..CharLength(s)]
  {
    match CharLength(s)
    case 1 => c := s[0];
    case 2 => c := TwoBytes(s[0] - 0xC0, s[1] - 0x80);
    case 3 => c := ThreeBytes(s[0] - 0xE0, s[1] - 0x80, s[2] - 0x80);
    case _ => c := FourBytes(s[0] - 0xF0, s[1] - 0x80, s[2] - 0x80, s[3] - 0x80);
  }

  ghost predicate IsText(s: seq<byte>, cs: seq<nat>) {
    (forall i :: 0 <= i < |cs| ==> Scalar(cs[i])) && EncodeText(cs) == s
  }

  lemma {:induction false} TextIsUtf8(cs: seq<nat>)
    requires forall i :: 0 <= i < |cs| ==> Scalar(cs[i])
    ensures Utf8(EncodeText(cs))
  {
    if cs != [] {
      var first, rest := EncodeChar(cs[0]), EncodeText(cs[1..]);
      CharTaken(cs[0], rest);
      TextIsUtf8(cs[1..]);
      assert (first + rest)[|first|..] == rest;
    }
  }

  lemma {:induction false} Utf8IsText(s: seq<byte>) returns (cs: seq<nat>)
    requires Utf8(s)
    ensures IsText(s, cs)
  {
    if s == [] {
      cs := [];
    } else {
      var n := CharLength(s);
      var c := CharIs(s);
      var rest := Utf8IsText(s[n..]);
      cs := [c] + rest;
      assert cs[1..] == rest && s == s[..n] + s[n..];
    }
  }

  /** A path is accepted exactly when it is the UTF-8 encoding of some text. */
  lemma Utf8Iff(s: seq<byte>)
    ensures Utf8(s) <==> exists cs :: IsText(s, cs)
  {
    if Utf8(s) {
      var cs := Utf8IsText(s);
    }
    if cs :| IsText(s, cs) { TextIsUtf8(cs); }
  }
}
