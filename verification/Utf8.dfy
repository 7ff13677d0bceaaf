/** Well-formed UTF-8 byte sequences (table 3-7 of the Unicode Standard). */
module Utf8 {
  import opened Bytes

  predicate Cont(b: byte) { 0x80 <= b <= 0xBF }

  /** Length of the well-formed character at the front of `s`; 0 if there is none. */
  function CharLen(s: Bytes): (n: nat)
    ensures n <= |s| && n <= 4
  {
    if s == [] then 0
    else if s[0] < 0x80 then 1
    else if |s| >= 2 && 0xC2 <= s[0] <= 0xDF && Cont(s[1]) then 2
    else if |s| >= 3 && 0xE0 <= s[0] <= 0xEF && Cont(s[1]) && Cont(s[2])
            && (s[0] == 0xE0 ==> 0xA0 <= s[1]) && (s[0] == 0xED ==> s[1] <= 0x9F) then 3
    else if |s| >= 4 && 0xF0 <= s[0] <= 0xF4 && Cont(s[1]) && Cont(s[2]) && Cont(s[3])
            && (s[0] == 0xF0 ==> 0x90 <= s[1]) && (s[0] == 0xF4 ==> s[1] <= 0x8F) then 4
    else 0
  }

  predicate Valid(s: Bytes) {
    s == [] || (CharLen(s) > 0 && Valid(s[CharLen(s)..]))
  }

  lemma {:induction false} AsciiIsValid(s: Bytes)
    requires forall i | 0 <= i < |s| :: s[i] < 0x80
    ensures Valid(s)
  {
    if s != [] {
      AsciiIsValid(s[1..]);
    }
  }

  // ---- the encoding of scalar values ----

  predicate Scalar(c: nat) { c < 0xD800 || 0xE000 <= c < 0x110000 }

  /** The bytes of one character (table 3-6 of the Unicode Standard). */
  function EncodeChar(c: nat): (b: Bytes)
    requires Scalar(c)
    ensures 1 <= |b| <= 4
  {
    if c < 0x80 then [c as byte]
    else if c < 0x800 then [(0xC0 + c / 64) as byte, (0x80 + c % 64) as byte]
    else if c < 0x10000 then [(0xE0 + c / 4096) as byte, (0x80 + c / 64 % 64) as byte, (0x80 + c % 64) as byte]
    else [(0xF0 + c / 262144) as byte, (0x80 + c / 4096 % 64) as byte, (0x80 + c / 64 % 64) as byte,
          (0x80 + c % 64) as byte]
  }

  predicate AllScalar(cs: seq<nat>) { forall i | 0 <= i < |cs| :: Scalar(cs[i]) }

  function EncodeText(cs: seq<nat>): Bytes
    requires AllScalar(cs)
  {
    if cs == [] then [] else EncodeChar(cs[0]) + EncodeText(cs[1..])
  }

  /** The scalar value of the character at the front. */
  function Decode(s: Bytes): nat
    requires CharLen(s) > 0
  {
    var n := CharLen(s);
    if n == 1 then s[0] as nat
    else if n == 2 then (s[0] as nat - 0xC0) * 64 + (s[1] as nat - 0x80)
    else if n == 3 then (s[0] as nat - 0xE0) * 4096 + (s[1] as nat - 0x80) * 64 + (s[2] as nat - 0x80)
    else (s[0] as nat - 0xF0) * 262144 + (s[1] as nat - 0x80) * 4096 + (s[2] as nat - 0x80) * 64 + (s[3] as nat - 0x80)
  }

  lemma Parts(a: nat, b: nat)
    requires b < 64
    ensures (a * 64 + b) / 64 == a && (a * 64 + b) % 64 == b
  {
  }

  lemma ThreeParts(x: nat, y: nat, z: nat)
    requires y < 64 && z < 64
    ensures var c := x * 4096 + y * 64 + z; c / 4096 == x && c / 64 % 64 == y && c % 64 == z
  {
    Parts(x, y);
    Parts(x * 64 + y, z);
    assert x * 4096 + y * 64 + z == (x * 64 + y) * 64 + z;
  }

  lemma FourParts(x: nat, y: nat, z: nat, w: nat)
    requires y < 64 && z < 64 && w < 64
    ensures var c := x * 262144 + y * 4096 + z * 64 + w;
            c / 262144 == x && c / 4096 % 64 == y && c / 64 % 64 == z && c % 64 == w
  {
    ThreeParts(x, y, z);
    var a := x * 4096 + y * 64 + z;
    Parts(a, w);
    assert x * 262144 + y * 4096 + z * 64 + w == a * 64 + w;
  }

  lemma ThreeBytes(s: Bytes)
    requires CharLen(s) == 3
    ensures Scalar(Decode(s)) && EncodeChar(Decode(s)) == s[..3]
  {
    var x, y, z := s[0] as nat - 0xE0, s[1] as nat - 0x80, s[2] as nat - 0x80;
    ThreeParts(x, y, z);
    assert 0x800 <= Decode(s) < 0x10000;
  }

  lemma FourBytes(s: Bytes)
    requires CharLen(s) == 4
    ensures Scalar(Decode(s)) && EncodeChar(Decode(s)) == s[..4]
  {
    var x, y, z, w := s[0] as nat - 0xF0, s[1] as nat - 0x80, s[2] as nat - 0x80, s[3] as nat - 0x80;
    FourParts(x, y, z, w);
    assert 0x10000 <= Decode(s) < 0x110000;
  }

  lemma DecodeIsScalar(s: Bytes)
    requires CharLen(s) > 0
    ensures Scalar(Decode(s)) && EncodeChar(Decode(s)) == s[..CharLen(s)]
  {
    var n := CharLen(s);
    if n == 2 {
      Parts(s[0] as nat - 0xC0, s[1] as nat - 0x80);
    } else if n == 3 {
      ThreeBytes(s);
    } else if n == 4 {
      FourBytes(s);
    }
  }

  lemma EncodeIsChar(c: nat, rest: Bytes)
    requires Scalar(c)
    ensures CharLen(EncodeChar(c) + rest) == |EncodeChar(c)|
  {
    assert c / 64 / 64 == c / 4096 && c / 4096 / 64 == c / 262144;
  }

  lemma {:induction false} Characters(s: Bytes) returns (cs: seq<nat>)
    requires Valid(s)
    ensures AllScalar(cs) && EncodeText(cs) == s
  {
    if s == [] {
      return [];
    }
    DecodeIsScalar(s);
    var more := Characters(s[CharLen(s)..]);
    return [Decode(s)] + more;
  }

  lemma {:induction false} TextIsValid(cs: seq<nat>)
    requires AllScalar(cs)
    ensures Valid(EncodeText(cs))
  {
    if cs != [] {
      var rest := EncodeText(cs[1..]);
      EncodeIsChar(cs[0], rest);
      assert EncodeText(cs)[|EncodeChar(cs[0])|..] == rest;
      TextIsValid(cs[1..]);
    }
  }

  /** A byte sequence is well-formed exactly if it encodes a sequence of scalar values. */
  lemma {:induction false} ValidIff(s: Bytes)
    ensures Valid(s) <==> exists cs :: AllScalar(cs) && EncodeText(cs) == s
  {
    if Valid(s) {
      var cs := Characters(s);
    }
    if cs :| AllScalar(cs) && EncodeText(cs) == s {
      TextIsValid(cs);
    }
  }

  /** The byte 0xFF occurs in no well-formed sequence. */
  lemma {:induction false} NoFF(s: Bytes)
    requires Valid(s)
    ensures forall i | 0 <= i < |s| :: s[i] != 0xFF
  {
    if s != [] {
      var n := CharLen(s);
      NoFF(s[n..]);
      assert forall i | n <= i < |s| :: s[i] == s[n..][i - n];
    }
  }
}
