/**
 * SipHash-c-d as defined in section 2 of Aumasson and Bernstein, "SipHash: a fast short-input
 * PRF", and the in-place implementation used for fingerprints, which is SipHash-1-3 under two
 * fixed keys.
 */
module SipHash {
  import opened Bytes

  // ---- 64-bit word operations ----

  function Add(a: bv64, b: bv64): bv64 { a + b }
  function Xor(a: bv64, b: bv64): bv64 { a ^ b }
  function Or(a: bv64, b: bv64): bv64 { a | b }
  /** Rotation to the left, by the five amounts in use. */
  function Rotl(a: bv64, n: nat): bv64
    requires n == 13 || n == 16 || n == 17 || n == 21 || n == 32
  {
    if n == 13 then (a << 13) | (a >> 51)
    else if n == 16 then (a << 16) | (a >> 48)
    else if n == 17 then (a << 17) | (a >> 47)
    else if n == 21 then (a << 21) | (a >> 43)
    else (a << 32) | (a >> 32)
  }

  lemma OrSwap(a: bv64, b: bv64, c: bv64)
    ensures Or(a, Or(b, c)) == Or(b, Or(a, c))
  {
  }

  lemma OrZero(a: bv64)
    ensures Or(0, a) == a && Or(a, 0) == a
  {
  }

  lemma OrCommutes(a: bv64, b: bv64)
    ensures Or(a, b) == Or(b, a)
  {
  }

  // ---- the definition ----

  datatype Lanes = Lanes(v0: bv64, v1: bv64, v2: bv64, v3: bv64)

  /** The ARX network of figure 2.1, both halves written out. */
  function Round(s: Lanes): Lanes {
    var a0 := Add(s.v0, s.v1);
    var a2 := Add(s.v2, s.v3);
    var b1 := Xor(Rotl(s.v1, 13), a0);
    var b3 := Xor(Rotl(s.v3, 16), a2);
    var c0 := Add(Rotl(a0, 32), b3);
    var c2 := Add(a2, b1);
    Lanes(c0, Xor(Rotl(b1, 17), c2), Rotl(c2, 32), Xor(Rotl(b3, 21), c0))
  }

  function Rounds(n: nat, s: Lanes): Lanes {
    if n == 0 then s else Rounds(n - 1, Round(s))
  }

  function Start(k0: bv64, k1: bv64): Lanes {
    Lanes(Xor(k0, 0x736f6d6570736575), Xor(k1, 0x646f72616e646f6d), Xor(k0, 0x6c7967656e657261),
        Xor(k1, 0x7465646279746573))
  }

  function Compress(c: nat, s: Lanes, m: bv64): Lanes {
    var t := Rounds(c, s.(v3 := Xor(s.v3, m)));
    t.(v0 := Xor(t.v0, m))
  }

  function Absorb(c: nat, s: Lanes, words: seq<bv64>): Lanes {
    if words == [] then s else Compress(c, Absorb(c, s, words[..|words| - 1]), words[|words| - 1])
  }

  function Finish(d: nat, s: Lanes): bv64 {
    var t := Rounds(d, s.(v2 := Xor(s.v2, 0xff)));
    Xor(Xor(Xor(t.v0, t.v1), t.v2), t.v3)
  }

  /** A byte moved to byte position `j` of a word. */
  function Place(b: byte, j: nat): bv64
    requires j < 8
  {
    var x := b as bv64;
    if j == 0 then x
    else if j == 1 then x << 8
    else if j == 2 then x << 16
    else if j == 3 then x << 24
    else if j == 4 then x << 32
    else if j == 5 then x << 40
    else if j == 6 then x << 48
    else x << 56
  }

  function WordFrom(b: Bytes, j: nat): bv64
    requires |b| == 8 && j <= 8
    decreases 8 - j
  {
    if j == 8 then 0 else Or(Place(b[j], j), WordFrom(b, j + 1))
  }

  /** Eight bytes read as a little-endian word. */
  function Word(b: Bytes): bv64
    requires |b| == 8
  {
    WordFrom(b, 0)
  }

  function Words(p: Bytes): seq<bv64>
    requires |p| % 8 == 0
  {
    if p == [] then [] else Words(p[..|p| - 8]) + [Word(p[|p| - 8..])]
  }

  function Zeros(n: nat): (z: Bytes)
    ensures |z| == n && forall i :: 0 <= i < n ==> z[i] == 0
  {
    seq(n, _ => 0)
  }

  function LengthTag(data: Bytes): byte { (|data| % 256) as byte }

  /** Zero padding up to a whole number of words, the last byte being the length mod 256. */
  function Pad(data: Bytes): (p: Bytes)
    ensures |p| % 8 == 0
  {
    data + Zeros(7 - |data| % 8) + [LengthTag(data)]
  }

  function SipHash(c: nat, d: nat, k0: bv64, k1: bv64, data: Bytes): bv64 {
    Finish(d, Absorb(c, Start(k0, k1), Words(Pad(data))))
  }

  // ---- the implementation ----

  const K0: bv64 := 0x736f6d6570736575
  const K1: bv64 := 0x646f72616e646f6d

  method SipRound(a0: bv64, a1: bv64, a2: bv64, a3: bv64) returns (v0: bv64, v1: bv64, v2: bv64, v3: bv64)
    ensures Lanes(v0, v1, v2, v3) == Round(Lanes(a0, a1, a2, a3))
  {
    hide Add, Xor, Rotl;
    v0, v1, v2, v3 := a0, a1, a2, a3;
    v0 := Add(v0, v1);
    v1 := Rotl(v1, 13);
    v1 := Xor(v1, v0);
    v0 := Rotl(v0, 32);
    v2 := Add(v2, v3);
    v3 := Rotl(v3, 16);
    v3 := Xor(v3, v2);
    v0 := Add(v0, v3);
    v3 := Rotl(v3, 21);
    v3 := Xor(v3, v0);
    v2 := Add(v2, v1);
    v1 := Rotl(v1, 17);
    v1 := Xor(v1, v2);
    v2 := Rotl(v2, 32);
  }

  lemma WordFromStep(b: Bytes, j: nat)
    requires |b| == 8 && j <= 8
    ensures WordFrom(b, j) == if j == 8 then 0 else Or(Place(b[j], j), WordFrom(b, j + 1))
    ensures Word(b) == WordFrom(b, 0)
  {
    hide Or, Place;
  }

  lemma ZeroPlace(j: nat)
    requires j < 8
    ensures Place(0, j) == 0
  {
    var x: bv64 := (0 as byte) as bv64;
    assert x == 0;
    assert x << 8 == 0 && x << 16 == 0 && x << 24 == 0 && x << 32 == 0 && x << 40 == 0 && x << 48 == 0 && x << 56 == 0;
  }

  /** Zero bytes below the top one contribute nothing. */
  lemma {:induction false} TopByteOnly(b: Bytes, j: nat)
    requires |b| == 8 && j <= 7 && forall i | 0 <= i < 7 :: b[i] == 0
    ensures WordFrom(b, j) == Place(b[7], 7)
    decreases 7 - j
  {
    hide *;
    WordFromStep(b, j);
    if j == 7 {
      WordFromStep(b, 8);
      OrZero(Place(b[7], 7));
    } else {
      TopByteOnly(b, j + 1);
      ZeroPlace(j);
      OrZero(Place(b[7], 7));
    }
  }

  lemma LengthOnly(b: Bytes)
    requires |b| == 8 && forall i | 0 <= i < 7 :: b[i] == 0
    ensures Word(b) == Place(b[7], 7)
  {
    hide *;
    WordFromStep(b, 0);
    TopByteOnly(b, 0);
  }

  /** ORing a byte into a zero position is writing it there. */
  lemma {:induction false} SetByteFrom(b: Bytes, k: nat, j: nat, x: byte)
    requires |b| == 8 && j < 8 && b[j] == 0 && k <= 8
    ensures WordFrom(b[j := x], k) == if k <= j then Or(Place(x, j), WordFrom(b, k)) else WordFrom(b, k)
    decreases 8 - k
  {
    hide *;
    WordFromStep(b, k);
    WordFromStep(b[j := x], k);
    if k < 8 {
      SetByteFrom(b, k + 1, j, x);
      if k == j {
        ZeroPlace(j);
        OrZero(WordFrom(b, k + 1));
      } else if k < j {
        OrSwap(Place(b[k], k), Place(x, j), WordFrom(b, k + 1));
      }
    }
  }

  lemma SetByte(b: Bytes, j: nat, x: byte)
    requires |b| == 8 && j < 8 && b[j] == 0
    ensures Word(b[j := x]) == Or(Word(b), Place(x, j))
  {
    hide *;
    WordFromStep(b, 0);
    WordFromStep(b[j := x], 0);
    SetByteFrom(b, 0, j, x);
    OrCommutes(Place(x, j), Word(b));
  }

  /** The last word: length in the top byte, remaining bytes ORed in from the low end. */
  method LastWord(data: Bytes, rem: Bytes) returns (last: bv64)
    requires |rem| < 8
    ensures last == Word(rem + Zeros(7 - |rem|) + [LengthTag(data)])
  {
    hide *;
    var tag := LengthTag(data);
    last := Place(tag, 7);
    var i := 0;
    LengthOnly(rem[..0] + Zeros(7) + [tag]);
    while i < |rem|
      invariant 0 <= i <= |rem|
      invariant last == Word(rem[..i] + Zeros(7 - i) + [tag])
    {
      ghost var before := rem[..i] + Zeros(7 - i) + [tag];
      SetByte(before, i, rem[i]);
      assert before[i := rem[i]] == rem[..i + 1] + Zeros(7 - (i + 1)) + [tag];
      last := Or(last, Place(rem[i], i));
      i := i + 1;
    }
    assert rem[..i] == rem;
  }

  lemma AbsorbSnoc(c: nat, s: Lanes, words: seq<bv64>, m: bv64)
    ensures Absorb(c, s, words + [m]) == Compress(c, Absorb(c, s, words), m)
  {
    hide Compress;
    assert (words + [m])[..|words|] == words;
  }

  lemma WordsSnoc(p: Bytes, w: Bytes)
    requires |p| % 8 == 0 && |w| == 8
    ensures |p + w| % 8 == 0 && Words(p + w) == Words(p) + [Word(w)]
  {
    hide Word;
    assert (p + w)[..|p|] == p && (p + w)[|p|..] == w;
  }

  lemma Started()
    ensures Start(K0, K1) == Lanes(Xor(K0, 0x736f6d6570736575), Xor(K1, 0x646f72616e646f6d),
                                   Xor(K0, 0x6c7967656e657261), Xor(K1, 0x7465646279746573))
  {
    hide Xor;
  }

  lemma NoWords(s: Lanes)
    ensures Absorb(1, s, Words([])) == s
  {
  }

  lemma OneRound(s: Lanes, m: bv64)
    ensures var t := Round(Lanes(s.v0, s.v1, s.v2, Xor(s.v3, m)));
            Compress(1, s, m) == Lanes(Xor(t.v0, m), t.v1, t.v2, t.v3)
  {
    hide Xor, Round;
    var a := s.(v3 := Xor(s.v3, m));
    assert Rounds(1, a) == Rounds(0, Round(a));
  }

  lemma ThreeRounds(s: Lanes)
    ensures var t := Round(Round(Round(Lanes(s.v0, s.v1, Xor(s.v2, 0xff), s.v3))));
            Finish(3, s) == Xor(Xor(Xor(t.v0, t.v1), t.v2), t.v3)
  {
    hide Xor, Round;
    var a := s.(v2 := Xor(s.v2, 0xff));
    assert Rounds(3, a) == Rounds(2, Round(a)) == Rounds(1, Round(Round(a))) == Rounds(0, Round(Round(Round(a))));
  }

  lemma Padding(data: Bytes, i: nat)
    requires i <= |data| < i + 8 && i % 8 == 0
    ensures var rem := data[i..];
            Pad(data) == data[..i] + (rem + Zeros(7 - |rem|) + [LengthTag(data)])
  {
    assert |data| % 8 == |data[i..]|;
    assert data == data[..i] + data[i..];
  }

  lemma Unfolded(c: nat, d: nat, k0: bv64, k1: bv64, data: Bytes)
    ensures SipHash(c, d, k0, k1, data) == Finish(d, Absorb(c, Start(k0, k1), Words(Pad(data))))
  {
    hide Finish, Absorb, Start, Words, Pad;
  }

  lemma FixedKeys()
    ensures K0 == 0x736f6d6570736575 && K1 == 0x646f72616e646f6d
  {
  }

  /** The chunk loop, the remainder and the finalisation compute SipHash-1-3 for every length. */
  method Hash(data: Bytes) returns (r: bv64)
    ensures r == SipHash(1, 3, 0x736f6d6570736575, 0x646f72616e646f6d, data)
  {
    hide *;
    var v0 := Xor(K0, 0x736f6d6570736575);
    var v1 := Xor(K1, 0x646f72616e646f6d);
    var v2 := Xor(K0, 0x6c7967656e657261);
    var v3 := Xor(K1, 0x7465646279746573);
    ghost var start := Start(K0, K1);
    Started();
    var i := 0;
    assert data[..0] == [];
    NoWords(start);
    while i + 8 <= |data|
      invariant 0 <= i <= |data| && i % 8 == 0
      invariant Lanes(v0, v1, v2, v3) == Absorb(1, start, Words(data[..i]))
    {
      var m := Word(data[i..i + 8]);
      assert data[..i] + data[i..i + 8] == data[..i + 8];
      WordsSnoc(data[..i], data[i..i + 8]);
      AbsorbSnoc(1, start, Words(data[..i]), m);
      OneRound(Lanes(v0, v1, v2, v3), m);
      v3 := Xor(v3, m);
      v0, v1, v2, v3 := SipRound(v0, v1, v2, v3);
      v0 := Xor(v0, m);
      i := i + 8;
    }
    var rem := data[i..];
    var last := LastWord(data, rem);
    Padding(data, i);
    WordsSnoc(data[..i], rem + Zeros(7 - |rem|) + [LengthTag(data)]);
    AbsorbSnoc(1, start, Words(data[..i]), last);
    OneRound(Lanes(v0, v1, v2, v3), last);
    v3 := Xor(v3, last);
    v0, v1, v2, v3 := SipRound(v0, v1, v2, v3);
    v0 := Xor(v0, last);
    ThreeRounds(Lanes(v0, v1, v2, v3));
    v2 := Xor(v2, 0xff);
    v0, v1, v2, v3 := SipRound(v0, v1, v2, v3);
    v0, v1, v2, v3 := SipRound(v0, v1, v2, v3);
    v0, v1, v2, v3 := SipRound(v0, v1, v2, v3);
    r := Xor(Xor(Xor(v0, v1), v2), v3);
    Unfolded(1, 3, K0, K1, data);
    FixedKeys();
  }

  lemma PlacedBytes()
    ensures Place(0, 0) == 0x0000000000000000
    ensures Place(1, 1) == 0x0000000000000100
    ensures Place(2, 2) == 0x0000000000020000
    ensures Place(3, 3) == 0x0000000003000000
    ensures Place(4, 4) == 0x0000000400000000
    ensures Place(5, 5) == 0x0000050000000000
    ensures Place(6, 6) == 0x0006000000000000
    ensures Place(7, 7) == 0x0700000000000000
  {
    var x0: bv64 := (0 as byte) as bv64;
    assert x0 == 0;
    var x1: bv64 := (1 as byte) as bv64;
    assert x1 == 1;
    var x2: bv64 := (2 as byte) as bv64;
    assert x2 == 2;
    var x3: bv64 := (3 as byte) as bv64;
    assert x3 == 3;
    var x4: bv64 := (4 as byte) as bv64;
    assert x4 == 4;
    var x5: bv64 := (5 as byte) as bv64;
    assert x5 == 5;
    var x6: bv64 := (6 as byte) as bv64;
    assert x6 == 6;
    var x7: bv64 := (7 as byte) as bv64;
    assert x7 == 7;
  }

  /** Words are little-endian: the first byte is the lowest. */
  lemma {:induction false} ByteOrder()
    ensures Word([0, 1, 2, 3, 4, 5, 6, 7]) == 0x0706050403020100
  {
    var b: Bytes := [0, 1, 2, 3, 4, 5, 6, 7];
    PlacedBytes();
    hide Place, WordFrom, Word;
    WordFromStep(b, 8);
    WordFromStep(b, 7);
    assert WordFrom(b, 7) == 0x0700000000000000;
    WordFromStep(b, 6);
    assert WordFrom(b, 6) == 0x0706000000000000;
    WordFromStep(b, 5);
    assert WordFrom(b, 5) == 0x0706050000000000;
    WordFromStep(b, 4);
    assert WordFrom(b, 4) == 0x0706050400000000;
    WordFromStep(b, 3);
    assert WordFrom(b, 3) == 0x0706050403000000;
    WordFromStep(b, 2);
    assert WordFrom(b, 2) == 0x0706050403020000;
    WordFromStep(b, 1);
    assert WordFrom(b, 1) == 0x0706050403020100;
    WordFromStep(b, 0);
    assert WordFrom(b, 0) == 0x0706050403020100;
  }

  /** The fingerprint function of the arena. */
  function Fingerprint(key: Bytes): u64 {
    SipHash(1, 3, K0, K1, key) as nat
  }
}
