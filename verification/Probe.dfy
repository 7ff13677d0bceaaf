/**
 * The linear probe sequence over a table of `n` slots, and why masking with `n - 1` walks it.
 */
module Probe {

  function Pow2(k: nat): (p: nat)
    ensures p > 0
  {
    if k == 0 then 1 else 2 * Pow2(k - 1)
  }

  /** Bitwise AND of two naturals, bit by bit from the low end. */
  function BitAnd(x: nat, y: nat): nat {
    if x == 0 || y == 0 then 0
    else 2 * BitAnd(x / 2, y / 2) + (if x % 2 == 1 && y % 2 == 1 then 1 else 0)
  }

  lemma MulGap(a: nat, b: nat, m: nat)
    requires a < b
    ensures b * m - a * m >= m
  {
    assert b * m - a * m == (b - a) * m;
    var t := b - a - 1;
    assert (t + 1) * m == t * m + m;
  }

  lemma ModUnique(x: nat, m: nat, q: nat, r: nat)
    requires m > 0 && r < m && x == q * m + r
    ensures x % m == r
  {
    var q', r' := x / m, x % m;
    assert x == q' * m + r';
    if q < q' { MulGap(q, q', m); }
    if q' < q { MulGap(q', q, m); }
  }

  lemma HalfMod(x: nat, m: nat)
    requires m > 0
    ensures x % (2 * m) == 2 * ((x / 2) % m) + x % 2
  {
    var q, r := (x / 2) / m, (x / 2) % m;
    assert x == 2 * (q * m + r) + x % 2;
    assert x == q * (2 * m) + (2 * r + x % 2);
    ModUnique(x, 2 * m, q, 2 * r + x % 2);
  }

  lemma AndOddMask(x: nat, m: nat)
    requires m > 0
    ensures BitAnd(x, 2 * m - 1) == 2 * BitAnd(x / 2, m - 1) + x % 2
  {
    var y := 2 * m - 1;
    assert y % 2 == 1 && y / 2 == m - 1;
  }

  /** `x & (2^k - 1)` is `x mod 2^k`: the fast modulo used for every probe index. */
  lemma {:induction false} MaskIsModulo(x: nat, k: nat)
    ensures BitAnd(x, Pow2(k) - 1) == x % Pow2(k)
  {
    if k == 0 {
      assert x % 1 == 0;
    } else {
      var m := Pow2(k - 1);
      HalfMod(x, m);
      AndOddMask(x, m);
      MaskIsModulo(x / 2, k - 1);
    }
  }

  /** Cyclic distance walked forward from `start` to `idx`. */
  function Dist(start: nat, idx: nat, n: nat): (d: nat)
    requires start < n && idx < n
    ensures d < n
  {
    if start <= idx then idx - start else idx + n - start
  }

  /** The slot at cyclic distance `d` after `start`. */
  function At(start: nat, d: nat, n: nat): (r: nat)
    requires start < n && d < n
    ensures r < n && Dist(start, r, n) == d
  {
    if start + d < n then start + d else start + d - n
  }

  lemma ProbeIndex(start: nat, d: nat, n: nat)
    requires start < n && d < n
    ensures (start + d) % n == At(start, d, n)
  {
    if start + d < n {
      ModUnique(start + d, n, 0, start + d);
    } else {
      ModUnique(start + d, n, 1, start + d - n);
    }
  }

  /** The index the code visits at step `i`: `(start + i) & (n - 1)`. */
  function Masked(start: nat, i: nat, n: nat): nat
    requires n > 0
  {
    BitAnd(start + i, n - 1)
  }

  lemma MaskedIsAt(start: nat, i: nat, k: nat)
    requires start < Pow2(k) && i < Pow2(k)
    ensures Masked(start, i, Pow2(k)) == At(start, i, Pow2(k))
  {
    MaskIsModulo(start + i, k);
    ProbeIndex(start, i, Pow2(k));
  }

  /**
   * Probe coverage: the masked indices visited for i = 0 .. n-1 hit every slot, each exactly
   * once, and slot `idx` is visited at step `Dist(start, idx)`.
   */
  lemma {:induction false} ProbesArePermutation(start: nat, k: nat)
    requires start < Pow2(k)
    ensures forall i: nat | i < Pow2(k) :: Masked(start, i, Pow2(k)) < Pow2(k)
    ensures forall idx: nat | idx < Pow2(k) :: Masked(start, Dist(start, idx, Pow2(k)), Pow2(k)) == idx
    ensures forall i: nat, j: nat | i < Pow2(k) && j < Pow2(k) && i != j ::
              Masked(start, i, Pow2(k)) != Masked(start, j, Pow2(k))
  {
    var n := Pow2(k);
    forall i: nat | i < n ensures Masked(start, i, n) == At(start, i, n) {
      MaskedIsAt(start, i, k);
    }
    forall idx: nat | idx < n ensures Masked(start, Dist(start, idx, n), n) == idx {
      assert At(start, Dist(start, idx, n), n) == idx;
    }
    forall i: nat, j: nat | i < n && j < n && i != j ensures Masked(start, i, n) != Masked(start, j, n) {
      assert Dist(start, At(start, i, n), n) == i;
    }
  }
}
