/**
 * Positional notation: the number a digit string denotes, its canonical digits, and the
 * carry-propagating multiply-and-add that base58 conversion is built from.
 */
module Radix {

  predicate InBase(ds: seq<nat>, base: nat) {
    forall i :: 0 <= i < |ds| ==> ds[i] < base
  }

  /** The number a big-endian digit string denotes. */
  ghost function Value(ds: seq<nat>, base: nat): nat {
    if ds == [] then 0 else Value(ds[..|ds| - 1], base) * base + ds[|ds| - 1]
  }

  /** The little-endian digits of `v`, without a zero top digit. */
  ghost function LittleDigits(v: nat, base: nat): seq<nat>
    requires base >= 2
  {
    if v == 0 then [] else [v % base] + LittleDigits(v / base, base)
  }

  ghost function Reversed(s: seq<nat>): (r: seq<nat>)
    ensures |r| == |s| && forall i :: 0 <= i < |s| ==> r[i] == s[|s| - 1 - i]
  {
    if s == [] then [] else Reversed(s[1..]) + [s[0]]
  }

  /** The big-endian digits of `v`, without a leading zero. */
  ghost function Digits(v: nat, base: nat): seq<nat>
    requires base >= 2
  {
    Reversed(LittleDigits(v, base))
  }

  // ------------------------------------------------------------ arithmetic

  lemma TimesGap(a: nat, b: nat, base: nat)
    requires a < b
    ensures a * base + base <= b * base
  {
    assert (a + 1) * base <= b * base;
  }

  lemma DivModUnique(q: nat, r: nat, base: nat)
    requires r < base
    ensures (q * base + r) / base == q && (q * base + r) % base == r
  {
    var v := q * base + r;
    var q', r' := v / base, v % base;
    assert v == q' * base + r';
    if q' < q { TimesGap(q', q, base); }
    if q < q' { TimesGap(q, q', base); }
  }

  lemma CarryBound(d: nat, mult: nat, carry: nat, base: nat)
    requires d < base && carry < mult
    ensures (d * mult + carry) / base < mult
  {
    TimesGap(d, base, mult);
    var x := d * mult + carry;
    var q := x / base;
    assert x == q * base + x % base;
    if mult <= q { TimesMonotone(mult, q, base); }
  }

  lemma TimesMonotone(a: nat, b: nat, base: nat)
    requires a <= b
    ensures a * base <= b * base
  {
  }

  lemma Regroup(v: nat, hi: nat, lo: nat, base: nat, mult: nat, carry: nat, c: nat, d: nat)
    requires v == hi * base + lo && lo * mult + carry == c * base + d
    ensures v * mult + carry == (hi * mult + c) * base + d
  {
    calc {
      v * mult + carry;
      (hi * base + lo) * mult + carry;
      hi * base * mult + lo * mult + carry;
      hi * base * mult + c * base + d;
      hi * mult * base + c * base + d;
      (hi * mult + c) * base + d;
    }
  }

  lemma Grows(v: nat, mult: nat)
    requires mult >= 1
    ensures v <= v * mult
  {
  }

  // ------------------------------------------------------------ digits

  /** The lowest digit of a number and the number above it. */
  lemma Split(v: nat, base: nat) returns (hi: nat, lo: nat)
    requires base >= 2
    ensures hi == v / base && lo == v % base && lo < base && v == hi * base + lo
    ensures v > 0 ==> hi < v && LittleDigits(v, base) == [lo] + LittleDigits(hi, base)
  {
    hi, lo := v / base, v % base;
    assert v == hi * base + lo;
    if v > 0 {
      if hi > 0 { TimesMonotone(2, base, hi); }
      LittleStep(v, base);
    }
    hide LittleDigits;
  }

  lemma LittleStep(v: nat, base: nat)
    requires base >= 2 && v > 0
    ensures LittleDigits(v, base) == [v % base] + LittleDigits(v / base, base)
  {
  }

  lemma Join(v: nat, hi: nat, lo: nat, base: nat)
    requires base >= 2 && lo < base && v == hi * base + lo && v > 0
    ensures LittleDigits(v, base) == [lo] + LittleDigits(hi, base)
    ensures Digits(v, base) == Digits(hi, base) + [lo]
  {
    DivModUnique(hi, lo, base);
    assert LittleDigits(v, base)[1..] == LittleDigits(hi, base);
  }

  lemma Empty(base: nat)
    requires base >= 2
    ensures Value([], base) == 0 && LittleDigits(0, base) == []
  {
  }

  lemma ValueSnoc(ds: seq<nat>, d: nat, base: nat)
    ensures Value(ds + [d], base) == Value(ds, base) * base + d
  {
    assert (ds + [d])[..|ds|] == ds;
  }

  /** The canonical digits are digits, denote their number, and do not start with zero. */
  lemma {:induction false} DigitsSound(v: nat, base: nat)
    requires base >= 2
    ensures InBase(Digits(v, base), base)
    ensures Value(Digits(v, base), base) == v
    ensures if v == 0 then Digits(v, base) == [] else Digits(v, base) != [] && Digits(v, base)[0] != 0
  {
    if v > 0 {
      var hi, lo := Split(v, base);
      Join(v, hi, lo, base);
      DigitsSound(hi, base);
      ValueSnoc(Digits(hi, base), lo, base);
    }
  }

  lemma LittleDigitsSound(v: nat, base: nat)
    requires base >= 2
    ensures InBase(LittleDigits(v, base), base)
    ensures v > 0 ==> LittleDigits(v, base) != [] && LittleDigits(v, base)[|LittleDigits(v, base)| - 1] != 0
  {
    DigitsSound(v, base);
    var ds := LittleDigits(v, base);
    assert forall i :: 0 <= i < |ds| ==> ds[i] == Digits(v, base)[|ds| - 1 - i];
  }

  /** A digit string that does not start with zero is the canonical one of its number. */
  lemma {:induction false} DigitsComplete(ds: seq<nat>, base: nat)
    requires base >= 2 && InBase(ds, base)
    requires ds != [] ==> ds[0] != 0
    ensures Digits(Value(ds, base), base) == ds
    ensures ds != [] ==> Value(ds, base) > 0
  {
    if ds != [] {
      var hi, lo := ds[..|ds| - 1], ds[|ds| - 1];
      DigitsComplete(hi, base);
      Grows(Value(hi, base), base);
      Join(Value(ds, base), Value(hi, base), lo, base);
    }
  }

  // ------------------------------------------------------------ multiply and add

  /** `ds * mult + carry` in the same base, carrying upwards from the lowest digit. */
  ghost function MulAdd(ds: seq<nat>, mult: nat, carry: nat, base: nat): seq<nat>
    requires base >= 2
  {
    if ds == [] then LittleDigits(carry, base)
    else
      var x := ds[0] * mult + carry;
      [x % base] + MulAdd(ds[1..], mult, x / base, base)
  }

  /** Carrying through digits without a zero top digit leaves none, and computes the number. */
  lemma {:induction false} MulAddIsArithmetic(v: nat, mult: nat, carry: nat, base: nat)
    requires base >= 2 && mult >= 1
    ensures MulAdd(LittleDigits(v, base), mult, carry, base) == LittleDigits(v * mult + carry, base)
  {
    if v > 0 {
      var hi, lo := Split(v, base);
      var c, d := Split(lo * mult + carry, base);
      Regroup(v, hi, lo, base, mult, carry, c, d);
      Grows(v, mult);
      Join(v * mult + carry, hi * mult + c, d, base);
      MulAddIsArithmetic(hi, mult, c, base);
      assert LittleDigits(v, base)[1..] == LittleDigits(hi, base);
    }
  }

  lemma MulAddStep(ds: seq<nat>, mult: nat, carry: nat, base: nat) returns (c: nat, d: nat)
    requires base >= 2 && ds != [] && ds[0] < base && carry < mult
    ensures c == (ds[0] * mult + carry) / base && d == (ds[0] * mult + carry) % base
    ensures c < mult && d < base
    ensures MulAdd(ds, mult, carry, base) == [d] + MulAdd(ds[1..], mult, c, base)
  {
    c, d := Split(ds[0] * mult + carry, base);
    CarryBound(ds[0], mult, carry, base);
  }

  /** The inner loop of base58 conversion: every digit is multiplied and the carry goes up. */
  method CarryThrough(digits: seq<nat>, mult: nat, carry0: nat, base: nat) returns (r: seq<nat>, carry: nat)
    requires 2 <= base && carry0 < mult && InBase(digits, base)
    ensures carry < mult && InBase(r, base) && |r| == |digits|
    ensures r + LittleDigits(carry, base) == MulAdd(digits, mult, carry0, base)
  {
    r, carry := digits, carry0;
    for k := 0 to |digits|
      invariant |r| == |digits| && r[k..] == digits[k..] && InBase(r, base) && carry < mult
      invariant r[..k] + MulAdd(digits[k..], mult, carry, base) == MulAdd(digits, mult, carry0, base)
    {
      ghost var c, d := MulAddStep(digits[k..], mult, carry, base);
      ghost var before, rest := r[..k], MulAdd(digits[k + 1..], mult, c, base);
      assert digits[k..][1..] == digits[k + 1..];
      assert before + ([d] + rest) == (before + [d]) + rest;
      var x := r[k] * mult + carry;
      r, carry := r[k := x % base], x / base;
      assert r[..k + 1] == before + [d];
    }
    assert r[..|digits|] == r;
  }

  /**
   * The digit vector of a number, multiplied and added to in place: one byte of base58 encoding
   * (base 58, times 256) or one character of decoding (base 256, times 58). The carry stays below
   * the multiplier, so every intermediate fits the source's `int` and every digit its byte.
   */
  method MulAddDigits(ghost v: nat, digits: seq<nat>, mult: nat, carry0: nat, base: nat) returns (r: seq<nat>)
    requires 2 <= base && carry0 < mult
    requires InBase(digits, base) && digits == LittleDigits(v, base)
    ensures r == LittleDigits(v * mult + carry0, base) && InBase(r, base)
    ensures r != [] ==> r[|r| - 1] != 0
  {
    var carry: nat;
    ghost var target: nat := v * mult + carry0;
    r, carry := CarryThrough(digits, mult, carry0, base);
    MulAddIsArithmetic(v, mult, carry0, base);
    while carry != 0
      invariant r + LittleDigits(carry, base) == LittleDigits(target, base)
    {
      ghost var hi, lo := Split(carry, base);
      assert r + ([lo] + LittleDigits(hi, base)) == (r + [lo]) + LittleDigits(hi, base);
      r, carry := r + [carry % base], carry / base;
    }
    assert r + LittleDigits(carry, base) == r;
    LittleDigitsSound(target, base);
  }
}
