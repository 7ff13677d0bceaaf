/** Decimal text of integers as Rust prints and parses it. */
module Decimal {
  import opened Bytes

  const ZERO: byte := 48
  const NINE: byte := 57
  const PLUS: byte := 43
  const MINUS: byte := 45

  predicate IsDigit(b: byte) { ZERO <= b <= NINE }

  predicate AllDigits(s: Bytes) { forall i | 0 <= i < |s| :: IsDigit(s[i]) }

  function Digit(n: nat): (b: byte)
    requires n < 10
    ensures IsDigit(b)
  {
    (n + 48) as byte
  }

  function PrintNat(n: nat): (s: Bytes)
    ensures s != [] && AllDigits(s)
  {
    if n < 10 then [Digit(n)] else PrintNat(n / 10) + [Digit(n % 10)]
  }

  function PrintInt(n: int): Bytes {
    if n < 0 then [MINUS] + PrintNat(-n) else PrintNat(n)
  }

  /** The number a string of digits denotes, leading zeros allowed. */
  function Value(s: Bytes): nat
    requires AllDigits(s)
  {
    if s == [] then 0 else 10 * Value(s[..|s| - 1]) + (s[|s| - 1] as int - 48)
  }

  function Unsigned(s: Bytes): Option<nat> {
    if s != [] && AllDigits(s) then Some(Value(s)) else None
  }

  /** `str::parse::<u64>`: an optional plus sign, at least one digit, no overflow. */
  function ParseU64(s: Bytes): Option<u64> {
    match Unsigned(if s != [] && s[0] == PLUS then s[1..] else s)
    case None => None
    case Some(n) => if n < TWO64 then Some(n) else None
  }

  predicate IsI64(n: int) { -0x8000_0000_0000_0000 <= n < 0x8000_0000_0000_0000 }

  /** `str::parse::<i64>`: an optional sign, at least one digit, no overflow. */
  function ParseI64(s: Bytes): (r: Option<int>)
    ensures r.Some? ==> IsI64(r.value)
  {
    var signed := s != [] && (s[0] == PLUS || s[0] == MINUS);
    match Unsigned(if signed then s[1..] else s)
    case None => None
    case Some(n) =>
      var v: int := if signed && s[0] == MINUS then -(n as int) else n;
      if IsI64(v) then Some(v) else None
  }

  lemma {:induction false} ValueOfPrint(n: nat)
    ensures Value(PrintNat(n)) == n
  {
    if n < 10 {
      assert Value([Digit(n)]) == 10 * Value([]) + n by {
        assert [Digit(n)][..0] == [];
      }
    } else {
      ValueOfPrint(n / 10);
      var p, s := PrintNat(n / 10), PrintNat(n);
      assert s[..|s| - 1] == p;
    }
  }

  /** Printing then parsing is the identity on the whole range of each type. */
  lemma {:induction false} ParsePrintU64(n: u64)
    ensures ParseU64(PrintNat(n)) == Some(n)
  {
    ValueOfPrint(n);
  }

  lemma {:induction false} ParsePrintI64(n: int)
    requires IsI64(n)
    ensures ParseI64(PrintInt(n)) == Some(n)
  {
    ValueOfPrint(if n < 0 then -n else n);
    if n < 0 {
      assert PrintInt(n)[1..] == PrintNat(-n);
    }
  }

  function ZeroDigits(k: nat): (z: Bytes)
    ensures |z| == k && forall i :: 0 <= i < k ==> z[i] == 48
  {
    seq(k, _ => 48)
  }

  /** The digits of `n` behind any number of zeros. */
  ghost predicate Denotes(d: Bytes, n: nat) { exists k: nat :: d == ZeroDigits(k) + PrintNat(n) }

  lemma {:induction false} LeadingZeros(k: nat, d: Bytes)
    requires AllDigits(d)
    ensures AllDigits(ZeroDigits(k) + d) && Value(ZeroDigits(k) + d) == Value(d)
  {
    var s := ZeroDigits(k) + d;
    if d != [] {
      assert s[..|s| - 1] == ZeroDigits(k) + d[..|d| - 1];
      LeadingZeros(k, d[..|d| - 1]);
    } else if k > 0 {
      assert s[..|s| - 1] == ZeroDigits(k - 1) + d;
      LeadingZeros(k - 1, d);
    }
  }

  lemma DenotesMore(p: Bytes, v: nat, x: nat)
    requires Denotes(p, v) && x < 10
    ensures Denotes(p + [Digit(x)], 10 * v + x)
  {
    var k: nat :| p == ZeroDigits(k) + PrintNat(v);
    if v == 0 {
      assert p + [Digit(x)] == ZeroDigits(k + 1) + PrintNat(x);
    } else {
      assert PrintNat(10 * v + x) == PrintNat(v) + [Digit(x)];
      assert p + [Digit(x)] == ZeroDigits(k) + PrintNat(10 * v + x);
    }
  }

  lemma SingleDigit(x: nat)
    requires x < 10
    ensures Denotes([Digit(x)], x)
  {
    assert [Digit(x)] == ZeroDigits(0) + PrintNat(x);
  }

  lemma {:induction false} DigitsDenote(d: Bytes)
    requires d != [] && AllDigits(d)
    ensures Denotes(d, Value(d))
  {
    var m := |d| - 1;
    var x := d[m] as int - 48;
    var p := d[..m];
    assert Digit(x) == d[m] && d == p + [Digit(x)];
    hide PrintNat, Denotes;
    if m == 0 {
      SingleDigit(x);
      assert d == [Digit(x)];
    } else {
      DigitsDenote(p);
      DenotesMore(p, Value(p), x);
    }
  }

  lemma {:induction false} UnsignedIff(d: Bytes, n: nat)
    ensures Unsigned(d) == Some(n) <==> Denotes(d, n)
  {
    if Unsigned(d) == Some(n) {
      DigitsDenote(d);
    }
    if Denotes(d, n) {
      var k: nat :| d == ZeroDigits(k) + PrintNat(n);
      LeadingZeros(k, PrintNat(n));
      ValueOfPrint(n);
    }
  }

  lemma DenotesStart(d: Bytes, n: nat)
    requires Denotes(d, n)
    ensures d != [] && IsDigit(d[0])
  {
    var k: nat :| d == ZeroDigits(k) + PrintNat(n);
    assert d[0] == if k > 0 then ZeroDigits(k)[0] else PrintNat(n)[0];
  }

  /** The text is a numeral for the natural `n`: an optional plus sign, any zeros, its digits. */
  ghost predicate NatText(s: Bytes, n: nat) { Denotes(s, n) || (s != [] && s[0] == 43 && Denotes(s[1..], n)) }

  /** The same with a minus sign for a negative number, or for zero. */
  ghost predicate IntText(s: Bytes, n: int) {
    (n >= 0 && NatText(s, n)) || (n <= 0 && s != [] && s[0] == 45 && Denotes(s[1..], -n))
  }

  /** A text parses as a u64 exactly if it is a numeral for it. */
  lemma {:induction false} ParseU64Iff(s: Bytes, n: u64)
    ensures ParseU64(s) == Some(n) <==> NatText(s, n)
  {
    UnsignedIff(s, n);
    if s != [] {
      UnsignedIff(s[1..], n);
    }
    if Denotes(s, n) {
      DenotesStart(s, n);
    }
  }

  /** A text parses as an i64 exactly if it is a numeral for it. */
  lemma {:induction false} ParseI64Iff(s: Bytes, n: int)
    requires IsI64(n)
    ensures ParseI64(s) == Some(n) <==> IntText(s, n)
  {
    var a: nat := if n < 0 then -n else n;
    UnsignedIff(s, a);
    if s != [] {
      UnsignedIff(s[1..], a);
    }
    if Denotes(s, a) {
      DenotesStart(s, a);
    }
  }

  /** Printed numbers are canonical: no leading zero except in "0" itself. */
  lemma {:induction false} PrintIsCanonical(n: nat)
    ensures PrintNat(n)[0] == ZERO ==> n == 0
  {
    if n >= 10 {
      PrintIsCanonical(n / 10);
    }
  }

  function Pow10(k: nat): nat { if k == 0 then 1 else 10 * Pow10(k - 1) }

  lemma {:induction false} PrintLength(n: nat, k: nat)
    requires k > 0 && n < Pow10(k)
    ensures |PrintNat(n)| <= k
  {
    assert Pow10(1) == 10;
    if n >= 10 {
      PrintLength(n / 10, k - 1);
    }
  }

  lemma PrintFits(n: u64)
    ensures |PrintNat(n)| <= 20
  {
    assert Pow10(5) == 100000;
    assert Pow10(10) == 100000 * Pow10(5);
    assert Pow10(15) == 100000 * Pow10(10);
    assert Pow10(20) == 100000 * Pow10(15);
    PrintLength(n, 20);
  }
}
