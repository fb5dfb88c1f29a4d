/** What the 64-bit patterns of doubles denote, and that their order is the order of the numbers. */
module Ieee {
  import opened Common

  const TWO_52 := 0x10_0000_0000_0000

  function Pow2(n: nat): (r: nat)
    ensures r > 0
  {
    if n == 0 then 1 else 2 * Pow2(n - 1)
  }

  /** The three fields of a pattern: sign bit, 11 bits of exponent, 52 bits of mantissa. */
  predicate Negative(d: Double) { d / TWO_63 == 1 }
  function Exponent(d: Double): (e: int)
    ensures 0 <= e < 2048
  {
    d / TWO_52 % 2048
  }
  function Mantissa(d: Double): (m: int)
    ensures 0 <= m < TWO_52
  {
    d % TWO_52
  }

  predicate IsNaN(d: Double) { Exponent(d) == 2047 && Mantissa(d) != 0 }

  /** The magnitude of a finite pattern in units of 2^-1074: m for a subnormal one, otherwise
      (2^52 + m) * 2^(e - 1). */
  function Units(e: nat, m: nat): nat {
    if e == 0 then m else (TWO_52 + m) * Pow2(e - 1)
  }

  datatype Number = MinusInfinity | Finite(x: real) | PlusInfinity

  /** The number that a pattern denotes. */
  ghost function Value(d: Double): Number
    requires !IsNaN(d)
  {
    if Exponent(d) == 2047 then (if Negative(d) then MinusInfinity else PlusInfinity)
    else
      var x := Units(Exponent(d), Mantissa(d)) as real / Pow2(1074) as real;
      Finite(if Negative(d) then -x else x)
  }

  ghost predicate Below(a: Number, b: Number) {
    match (a, b)
    case (MinusInfinity, _) => b != MinusInfinity
    case (_, PlusInfinity) => a != PlusInfinity
    case (Finite(x), Finite(y)) => x < y
    case _ => false
  }

  lemma {:induction false} Pow2Grows(i: nat, j: nat)
    requires i <= j
    ensures Pow2(i) <= Pow2(j)
    decreases j
  {
    if i < j { Pow2Grows(i, j - 1); }
  }

  lemma MulGrows(a: nat, b: nat, c: nat)
    requires a < b && c > 0
    ensures a * c < b * c
  {
  }

  lemma MulKeeps(a: nat, b: nat, c: nat, d: nat)
    requires a <= b && c <= d
    ensures a * c <= b * d
  {
    assert a * c <= a * d <= b * d;
  }

  /** A larger magnitude pattern is a larger magnitude. */
  lemma UnitsGrow(e: nat, m: nat, f: nat, n: nat)
    requires m < TWO_52 && n < TWO_52 && (e < f || (e == f && m < n))
    ensures Units(e, m) < Units(f, n)
  {
    if e == f {
      if e > 0 { MulGrows(TWO_52 + m, TWO_52 + n, Pow2(e - 1)); }
    } else {
      if e > 0 {
        MulGrows(TWO_52 + m, 2 * TWO_52, Pow2(e - 1));
        assert 2 * TWO_52 * Pow2(e - 1) == TWO_52 * Pow2(e);
      }
      Pow2Grows(e, f - 1);
      MulKeeps(TWO_52, TWO_52 + n, Pow2(e), Pow2(f - 1));
      assert Units(e, m) < TWO_52 * Pow2(e);
    }
  }

  lemma Scaled(a: int, b: int, c: real)
    requires c > 0.0
    ensures a < b <==> a as real / c < b as real / c
  {
    if a < b {
      DivGrows(a as real, b as real, c);
    } else if b < a {
      DivGrows(b as real, a as real, c);
    }
  }

  lemma DivGrows(x: real, y: real, c: real)
    requires x < y && c > 0.0
    ensures x / c < y / c
  {
    var p, q := x / c, y / c;
    assert p * c == x && q * c == y;
    assert q <= p ==> (p - q) * c >= 0.0;
  }

  /** The sign and magnitude of a pattern, as the fields have them. */
  lemma Fields(d: Double)
    ensures d == (if Negative(d) then TWO_63 else 0) + Exponent(d) * TWO_52 + Mantissa(d)
  {
  }

  /** The finite values as integers, in units of 2^-1074. */
  function InUnits(d: Double): int {
    var u: int := Units(Exponent(d), Mantissa(d));
    if Negative(d) then -u else u
  }

  lemma NegativeOf(u: int, c: real)
    requires c > 0.0
    ensures -(u as real / c) == (-u) as real / c
  {
    var x := u as real / c;
    assert x * c == u as real && (-x) * c == -(x * c);
  }

  lemma InUnitsIs(d: Double)
    requires Exponent(d) < 2047
    ensures Value(d) == Finite(InUnits(d) as real / Pow2(1074) as real)
  {
    NegativeOf(Units(Exponent(d), Mantissa(d)), Pow2(1074) as real);
  }

  lemma UnitsPositive(d: Double)
    ensures Units(Exponent(d), Mantissa(d)) == 0 <==> Exponent(d) == 0 && Mantissa(d) == 0
  {
    if Exponent(d) > 0 {
      MulGrows(0, TWO_52 + Mantissa(d), Pow2(Exponent(d) - 1));
    }
  }

  lemma InUnitsOrder(a: Double, b: Double)
    ensures Rank(a) < Rank(b) ==> InUnits(a) < InUnits(b)
    ensures Rank(a) == Rank(b) ==> InUnits(a) == InUnits(b)
  {
    Fields(a);
    Fields(b);
    var e, m, f, n := Exponent(a), Mantissa(a), Exponent(b), Mantissa(b);
    UnitsPositive(a);
    UnitsPositive(b);
    if Rank(a) < Rank(b) {
      if !Negative(a) && !Negative(b) {
        UnitsGrow(e, m, f, n);
      } else if Negative(a) && Negative(b) {
        UnitsGrow(f, n, e, m);
      }
    }
  }

  /** Comparing patterns by Rank is comparing the numbers, and only the two zeros are equal without
      being the same pattern. */
  lemma RankIsOrder(a: Double, b: Double)
    requires !IsNaN(a) && !IsNaN(b)
    ensures Rank(a) < Rank(b) <==> Below(Value(a), Value(b))
    ensures Rank(a) == Rank(b) <==> Value(a) == Value(b)
    ensures Rank(a) == Rank(b) <==> a == b || (a in {0, TWO_63} && b in {0, TWO_63})
  {
    Fields(a);
    Fields(b);
    if Exponent(a) < 2047 && Exponent(b) < 2047 {
      InUnitsIs(a);
      InUnitsIs(b);
      InUnitsOrder(a, b);
      InUnitsOrder(b, a);
      Scaled(InUnits(a), InUnits(b), Pow2(1074) as real);
      Scaled(InUnits(b), InUnits(a), Pow2(1074) as real);
    }
  }

  lemma WholeValue(d: Double, k: nat)
    requires Exponent(d) < 2047 && Units(Exponent(d), Mantissa(d)) == k * Pow2(1074)
    ensures Value(d) == Finite(if Negative(d) then -(k as real) else k as real)
  {
    Quotient(k, Pow2(1074));
  }

  /** Anchors of the scale: with a zero mantissa, exponent 1023 is one and 1024 is two. */
  lemma OneAndTwo(d: Double)
    requires Mantissa(d) == 0 && Exponent(d) in {1023, 1024}
    ensures var x := if Exponent(d) == 1023 then 1.0 else 2.0;
      Value(d) == Finite(if Negative(d) then -x else x)
  {
    OneUnits();
    WholeValue(d, Exponent(d) - 1022);
  }

  lemma Quotient(k: nat, c: nat)
    requires c > 0
    ensures (k * c) as real / c as real == k as real
  {
    assert (k * c) as real == k as real * c as real;
  }

  lemma OneUnits()
    ensures Units(1023, 0) == Pow2(1074) && Units(1024, 0) == 2 * Pow2(1074)
  {
    Pow52();
    Pow2Adds(52, 1022);
    Pow2Next(1022);
  }

  lemma Pow2Next(i: nat)
    ensures Pow2(i + 1) == 2 * Pow2(i)
  {
  }

  lemma {:induction false} Pow2Adds(i: nat, j: nat)
    ensures Pow2(i + j) == Pow2(i) * Pow2(j)
    decreases i
  {
    if i > 0 {
      Pow2Adds(i - 1, j);
      assert Pow2(i + j) == 2 * (Pow2(i - 1) * Pow2(j));
    }
  }

  lemma Pow52()
    ensures Pow2(52) == TWO_52
  {
    assert Pow2(4) == 16 && Pow2(13) == 512 * Pow2(4);
    Pow2Adds(13, 13);
    Pow2Adds(26, 26);
  }
}
