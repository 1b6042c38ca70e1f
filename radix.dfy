/**
 * Exact positional arithmetic on unbounded naturals: the part of Go's
 * `math/big` that the codec relies on (`SetBytes`, `Bytes`, repeated
 * division and multiply-add by a small base), stated once for both radices it uses.
 * Digit strings are most-significant digit first, as big-endian bytes are.
 */
module Radix {

  /** An octet, as in Go's `byte`. */
  type byte = b: int | 0 <= b < 256

  /** The two radices the codec converts between: base-58 text and base-256 bytes. */
  type Base = b: nat | b == 58 || b == 256 witness 58

  function Pow(base: nat, e: nat): (r: nat)
    ensures base > 0 ==> r > 0
  {
    if e == 0 then 1 else base * Pow(base, e - 1)
  }

  /** Every element of `ds` is a digit of `base`. */
  predicate IsDigits(ds: seq<nat>, base: Base)
  {
    forall i | 0 <= i < |ds| :: ds[i] < base
  }

  /** The number that the big-endian digit string `ds` denotes in `base`. */
  function Value(ds: seq<nat>, base: Base): nat
  {
    if ds == [] then 0 else Value(ds[..|ds| - 1], base) * base + ds[|ds| - 1]
  }

  /** The `w` least significant digits of `n` in `base`, most significant first. */
  function Fixed(n: nat, base: Base, w: nat): (ds: seq<nat>)
    ensures |ds| == w && IsDigits(ds, base)
  {
    if w == 0 then [] else Fixed(n / base, base, w - 1) + [n % base]
  }

  /**
   * The shortest digit string of `n` in `base`: no leading zero digit, and
   * empty for zero (what `big.Int.Bytes` returns for base 256).
   */
  function Minimal(n: nat, base: Base): (ds: seq<nat>)
    ensures IsDigits(ds, base)
    ensures ds != [] ==> ds[0] != 0
    decreases n
  {
    if n == 0 then [] else Minimal(n / base, base) + [n % base]
  }

  /** `w` zero digits. */
  function Zeros(w: nat): (z: seq<nat>)
    ensures |z| == w && forall i | 0 <= i < w :: z[i] == 0
  {
    seq(w, _ => 0)
  }

  /** Big-endian value of a byte string (`big.Int.SetBytes`): below 256^|bs|. */
  function BytesToNat(bs: seq<byte>): (n: nat)
    ensures n < Pow(256, |bs|)
  {
    ValueBound(bs, 256);
    Value(bs, 256)
  }

  /** The `w`-byte big-endian form of `n` (modulo 256^w). */
  function NatToBytes(n: nat, w: nat): (bs: seq<byte>)
    ensures |bs| == w
  {
    Fixed(n, 256, w)
  }

  // ---------------------------------------------------------------------
  // Division facts

  lemma DivModOfMulAdd(q: nat, base: Base, d: nat)
    requires d < base
    ensures (q * base + d) / base == q && (q * base + d) % base == d
  {
  }

  lemma Distribute(a: nat, b: nat, c: nat)
    ensures (a + b) * c == a * c + b * c
  {
  }

  lemma MulLeMul(a: nat, b: nat, c: nat)
    requires a <= b
    ensures a * c <= b * c
  {
  }

  // ---------------------------------------------------------------------
  // Value and its inverses

  lemma {:induction false} ValueBound(ds: seq<nat>, base: Base)
    requires IsDigits(ds, base)
    ensures Value(ds, base) < Pow(base, |ds|)
  {
    if ds != [] {
      var init := ds[..|ds| - 1];
      assert IsDigits(init, base);
      ValueBound(init, base);
      MulLeMul(Value(init, base), Pow(base, |init|) - 1, base);
    }
  }

  /** Fixed-width conversion is exact for numbers that fit the width. */
  lemma {:induction false} FixedValue(n: nat, base: Base, w: nat)
    requires n < Pow(base, w)
    ensures Value(Fixed(n, base, w), base) == n
  {
    if w > 0 {
      var ds := Fixed(n, base, w);
      assert ds[..w - 1] == Fixed(n / base, base, w - 1);
      FixedValue(n / base, base, w - 1);
    }
  }

  /** A digit string of width `w` is the fixed-width form of its own value. */
  lemma {:induction false} FixedOfValue(ds: seq<nat>, base: Base)
    requires IsDigits(ds, base)
    ensures Fixed(Value(ds, base), base, |ds|) == ds
  {
    if ds != [] {
      var init := ds[..|ds| - 1];
      assert IsDigits(init, base);
      FixedOfValue(init, base);
      DivModOfMulAdd(Value(init, base), base, ds[|ds| - 1]);
    }
  }

  /** Two digit strings of equal width and equal value are equal. */
  lemma ValueInjective(a: seq<nat>, b: seq<nat>, base: Base)
    requires IsDigits(a, base) && IsDigits(b, base)
    requires |a| == |b| && Value(a, base) == Value(b, base)
    ensures a == b
  {
    FixedOfValue(a, base);
    FixedOfValue(b, base);
  }

  lemma {:induction false} MinimalValue(n: nat, base: Base)
    ensures Value(Minimal(n, base), base) == n
    decreases n
  {
    if n > 0 {
      var ds := Minimal(n, base);
      assert ds[..|ds| - 1] == Minimal(n / base, base);
      MinimalValue(n / base, base);
    }
  }

  lemma {:induction false} MinimalLength(n: nat, base: Base, w: nat)
    requires n < Pow(base, w)
    ensures |Minimal(n, base)| <= w
    decreases n
  {
    if n > 0 {
      assert w > 0;
      MinimalLength(n / base, base, w - 1);
    }
  }

  // ---------------------------------------------------------------------
  // How Value behaves under the edits the codec makes

  lemma {:induction false} ValueOfZeros(w: nat, base: Base)
    ensures Value(Zeros(w), base) == 0
  {
    if w > 0 {
      assert Zeros(w)[..w - 1] == Zeros(w - 1);
      ValueOfZeros(w - 1, base);
    }
  }

  /** Leading zero digits do not change the value. */
  lemma {:induction false} ValueLeadingZeros(z: seq<nat>, ds: seq<nat>, base: Base)
    requires forall i | 0 <= i < |z| :: z[i] == 0
    ensures Value(z + ds, base) == Value(ds, base)
    decreases |ds|
  {
    if ds == [] {
      assert z + ds == Zeros(|z|);
      ValueOfZeros(|z|, base);
    } else {
      var init := ds[..|ds| - 1];
      assert (z + ds)[..|z + ds| - 1] == z + init;
      ValueLeadingZeros(z, init, base);
    }
  }

  /** Appending a digit: the left-to-right multiply-add step. */
  lemma ValueAppend(ds: seq<nat>, d: nat, base: Base)
    ensures Value(ds + [d], base) == Value(ds, base) * base + d
  {
    assert (ds + [d])[..|ds|] == ds;
  }

  /** Concatenation: the left part is shifted by the width of the right part. */
  lemma {:induction false} ValueConcat(a: seq<nat>, b: seq<nat>, base: Base)
    ensures Value(a + b, base) == Value(a, base) * Pow(base, |b|) + Value(b, base)
    decreases |b|
  {
    if b == [] {
      assert a + b == a;
    } else {
      var init := b[..|b| - 1];
      assert (a + b)[..|a + b| - 1] == a + init;
      ValueConcat(a, init, base);
      ShiftStep(Value(a, base), Pow(base, |init|), Value(init, base), b[|b| - 1], base);
    }
  }

  lemma ShiftStep(va: nat, p: nat, vi: nat, last: nat, base: nat)
    ensures (va * p + vi) * base + last == va * (base * p) + (vi * base + last)
  {
    Distribute(va * p, vi, base);
    assert (va * p) * base == va * (base * p);
  }

  /** The value of a prefix never exceeds the value of the whole string. */
  lemma {:induction false} ValuePrefixMonotone(ds: seq<nat>, j: nat, base: Base)
    requires j <= |ds|
    ensures Value(ds[..j], base) <= Value(ds, base)
    decreases |ds|
  {
    if j < |ds| {
      var init := ds[..|ds| - 1];
      assert ds[..j] == init[..j];
      ValuePrefixMonotone(init, j, base);
      MulLeMul(1, base, Value(init, base));
      assert Value(init, base) <= Value(init, base) * base;
      assert Value(ds, base) == Value(init, base) * base + ds[|ds| - 1];
    } else {
      assert ds[..j] == ds;
    }
  }

  // ---------------------------------------------------------------------
  // The same facts for big-endian bytes

  /** `SetBytes` then a fixed-width `Bytes` is the identity on byte strings. */
  lemma NatToBytesOfBytes(bs: seq<byte>)
    ensures NatToBytes(BytesToNat(bs), |bs|) == bs
  {
    FixedOfValue(bs, 256);
  }

  /** The fixed-width form of a number that fits has that number as its value. */
  lemma BytesToNatOfNatToBytes(n: nat, w: nat)
    requires n < Pow(256, w)
    ensures BytesToNat(NatToBytes(n, w)) == n
  {
    FixedValue(n, 256, w);
  }
}
