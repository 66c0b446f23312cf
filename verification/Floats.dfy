/** IEEE 754 binary32 and binary64 bit patterns (IEEE 754-2008 section 3.4). */
module Floats {
  import opened Bytes

  function Pow2(k: nat): (r: int)
    ensures r >= 1
  {
    if k == 0 then 1 else 2 * Pow2(k - 1)
  }

  // ---- formats and their fields ----

  datatype Format = Binary32 | Binary64

  /** The implicit leading bit of a normal significand. */
  function Hidden(f: Format): nat { if f.Binary32? then 0x80_0000 else 0x10_0000_0000_0000 }

  /** The number of exponent fields; the last one is for infinities and NaNs. */
  function Fields(f: Format): nat { if f.Binary32? then 256 else 2048 }

  /** An exponent field e stands for the scale 2^(e - Bias). */
  function Bias(f: Format): nat { if f.Binary32? then 150 else 1075 }

  function SignBit(f: Format): nat { if f.Binary32? then 0x8000_0000 else 0x8000_0000_0000_0000 }

  predicate Pattern(f: Format, bits: nat) { bits < 2 * SignBit(f) }

  // A finite pattern denotes Sign * Significand * 2^Scale.

  function Field(f: Format, bits: nat): nat { bits / Hidden(f) % Fields(f) }

  function Fraction(f: Format, bits: nat): nat { bits % Hidden(f) }

  function Negative(f: Format, bits: nat): (r: nat)
    ensures r < 2
  {
    bits / SignBit(f) % 2
  }

  predicate Finite(f: Format, bits: nat) { Field(f, bits) != Fields(f) - 1 }

  predicate NaN(f: Format, bits: nat) { Field(f, bits) == Fields(f) - 1 && Fraction(f, bits) != 0 }

  function Sign(f: Format, bits: nat): int { SignOf(Negative(f, bits)) }

  function SignOf(negative: nat): int { if negative == 1 then -1 else 1 }

  function Significand(f: Format, bits: nat): nat {
    if Field(f, bits) == 0 then Fraction(f, bits) else Fraction(f, bits) + Hidden(f)
  }

  function Scale(f: Format, bits: nat): int {
    (if Field(f, bits) == 0 then 1 else Field(f, bits)) - Bias(f)
  }

  /** A pattern from its fields. */
  function Assemble(f: Format, negative: nat, field: nat, fraction: nat): nat {
    (negative * Fields(f) + field) * Hidden(f) + fraction
  }

  // ---- binary32 to binary64 ----

  datatype Scaled = Scaled(frac: nat, exp: nat)

  /** Shifts a subnormal fraction up to its implicit bit, lowering the exponent as it goes. */
  function Normalize(frac: nat, exp: nat): Scaled
    decreases exp
  {
    if frac >= 0x80_0000 || exp == 0 then Scaled(frac, exp) else Normalize(2 * frac, exp - 1)
  }

  /** The binary64 pattern a binary32 pattern converts to. NaNs come out quiet. */
  function Widen32(bits: nat): nat {
    WidenFields(Negative(Binary32, bits), Field(Binary32, bits), Fraction(Binary32, bits))
  }

  function WidenFields(negative: nat, field: nat, fraction: nat): nat {
    if field == 255 then
      Assemble(Binary64, negative, 2047,
               0x2000_0000 * (if 0 < fraction < 0x40_0000 then fraction + 0x40_0000 else fraction))
    else if field > 0 then Assemble(Binary64, negative, field + 896, fraction * 0x2000_0000)
    else if fraction == 0 then Assemble(Binary64, negative, 0, 0)
    else
      var n := Normalize(fraction, 897);
      Assemble(Binary64, negative, n.exp, n.frac % 0x80_0000 * 0x2000_0000)
  }

  // ---- whole numbers ----

  /** m is a multiple of 2^k. */
  predicate Multiple(m: nat, k: nat)
    decreases k
  {
    k == 0 || (m % 2 == 0 && Multiple(m / 2, k - 1))
  }

  /** m shifted right by k. */
  function Shifted(m: nat, k: nat): nat
    decreases k
  {
    if k == 0 then m else Shifted(m / 2, k - 1)
  }

  /** The value is a whole number: what math.Trunc leaves alone. */
  predicate Whole(f: Format, bits: nat) {
    Finite(f, bits) && (Scale(f, bits) >= 0 || Multiple(Significand(f, bits), -Scale(f, bits)))
  }

  /** The value cut off at the point: math.Trunc. */
  function Truncated(f: Format, bits: nat): int
    requires Finite(f, bits)
  {
    var x := Scale(f, bits);
    Sign(f, bits) * (if x >= 0 then Significand(f, bits) * Pow2(x) else Shifted(Significand(f, bits), -x))
  }

  datatype Conversion = Refused | Converted(n: int)

  /** A float where an int64 is wanted. The bound is MaxInt64 rounded to a float, that is
      2^63, which passes the check and then converts to whatever the hardware makes of it. */
  function ToInt64(bits: nat, wild: int): Conversion {
    if !Whole(Binary64, bits) then Refused else
    var n := Truncated(Binary64, bits);
    if n < -TWO63 || n > TWO63 then Refused
    else if n < TWO63 then Converted(n)
    else Converted(wild)
  }

  function ToUint64(bits: nat, wild: int): Conversion {
    if !Whole(Binary64, bits) then Refused else
    var n := Truncated(Binary64, bits);
    if n < 0 || n > TWO64 then Refused
    else if n < TWO64 then Converted(n)
    else Converted(wild)
  }

  // ---- the real number a pattern denotes ----

  function RealPow2(x: int): real {
    if x >= 0 then Pow2(x) as real else 1.0 / Pow2(-x) as real
  }

  /** m * 2^x. */
  function Scaling(m: nat, x: int): real { m as real * RealPow2(x) }

  function Real(sign: int, m: nat, x: int): real {
    if sign == -1 then -Scaling(m, x) else Scaling(m, x)
  }

  function RealValue(f: Format, bits: nat): real
    requires Finite(f, bits)
  {
    Real(Sign(f, bits), Significand(f, bits), Scale(f, bits))
  }

  predicate Integral(r: real) { r == r.Floor as real }

  lemma {:induction false} RealPow2Double(x: int)
    ensures RealPow2(x + 1) == 2.0 * RealPow2(x)
  {
    if x < -1 {
      var p := Pow2(-x - 1) as real;
      assert Pow2(-x) as real == 2.0 * p;
      assert 2.0 * (1.0 / (2.0 * p)) == 1.0 / p;
    }
  }

  lemma {:induction false} RealPow2Shift(x: int, k: nat)
    ensures RealPow2(x) == Pow2(k) as real * RealPow2(x - k)
  {
    hide RealPow2;
    if k == 0 {
    } else {
      RealPow2Shift(x, k - 1);
      RealPow2Double(x - k);
      assert x - k + 1 == x - (k - 1);
    }
  }

  lemma Cancel(m: real, p: real, r: real, q: real)
    requires p * r == 1.0 && m * r == q
    ensures m == p * q
  {
    assert p * (m * r) == m * (p * r);
  }

  lemma CastProduct(a: int, b: int)
    ensures (a * b) as real == a as real * b as real
  {}

  lemma TwiceIsEven(m: nat, p: int, q: int)
    requires m == (2 * p) * q
    ensures m % 2 == 0
  {
    assert m == 2 * (p * q);
  }

  /** If m over a proper power of two is an integer, then m is even. */
  lemma EvenIfIntegral(m: nat, k: nat, q: int)
    requires k > 0 && Scaling(m, 0 - k) == q as real
    ensures m % 2 == 0
  {
    hide RealPow2;
    RealPow2Shift(0, k);
    RealOne();
    Cancel(m as real, Pow2(k) as real, RealPow2(0 - k), q as real);
    CastProduct(Pow2(k), q);
    TwiceIsEven(m, Pow2(k - 1), q);
  }

  lemma RealOne()
    ensures RealPow2(0) == 1.0
  {}

  lemma ScalingByOne(m: nat)
    ensures Scaling(m, 0) == m as real
  {}

  lemma {:induction false} MultipleIsIntegral(m: nat, k: nat)
    ensures Multiple(m, k) <==> Integral(Scaling(m, 0 - k))
    ensures Multiple(m, k) ==> Scaling(m, 0 - k) == Shifted(m, k) as real
    decreases k
  {
    hide RealPow2, Scaling, Integral;
    if k == 0 {
      ScalingByOne(m);
      IntegerIsIntegral(m);
    } else if m % 2 == 0 {
      MultipleIsIntegral(m / 2, k - 1);
      Halve(m, m / 2, 0 - k, 0 - (k - 1));
    } else {
      OddFraction(m, k);
    }
  }

  lemma Halve(m: nat, h: nat, x: int, y: int)
    requires m == 2 * h && y == x + 1
    ensures Scaling(m, x) == Scaling(h, y)
  {
    hide RealPow2;
    RealPow2Double(x);
    assert m as real == 2.0 * h as real;
  }

  lemma OddFraction(m: nat, k: nat)
    requires m % 2 == 1 && k > 0
    ensures !Integral(Scaling(m, 0 - k))
  {
    hide RealPow2;
    var v := Scaling(m, 0 - k);
    if v == v.Floor as real { EvenIfIntegral(m, k, v.Floor); }
  }

  lemma NegatedIntegral(r: real)
    ensures Integral(-r) <==> Integral(r)
  {
    if Integral(r) { assert -r == (-r.Floor) as real; }
    if Integral(-r) { assert r == (-(-r).Floor) as real; }
  }

  /** A pattern is whole exactly when its real value is, and then the two agree. */
  lemma WholeIsInteger(f: Format, bits: nat)
    requires Finite(f, bits)
    ensures Whole(f, bits) <==> Integral(RealValue(f, bits))
    ensures Whole(f, bits) ==> RealValue(f, bits) == Truncated(f, bits) as real
  {
    hide Pow2, RealPow2, Scaling, Finite, Significand, Scale, Negative, Integral, Multiple, Shifted;
    var x, m := Scale(f, bits), Significand(f, bits);
    NegatedIntegral(Scaling(m, x));
    if x >= 0 {
      IntegerIsIntegral(m * Pow2(x));
      WholeProduct(m, x);
    } else {
      MultipleIsIntegral(m, -x);
      assert 0 - -x == x;
    }
  }

  lemma WholeProduct(m: nat, x: int)
    requires x >= 0
    ensures Scaling(m, x) == (m * Pow2(x)) as real
  {
    hide Pow2;
  }

  lemma IntegerIsIntegral(n: int)
    ensures Integral(n as real)
  {}

  /** A float is accepted as an int64 exactly when it is finite, whole and between -2^63 and
      2^63 inclusive; it is then converted without change, except for 2^63 itself, which is out
      of range and slips through the check. */
  lemma ToInt64Exact(bits: nat, wild: int)
    ensures ToInt64(bits, wild).Converted? <==>
      && Finite(Binary64, bits) && Integral(RealValue(Binary64, bits))
      && -(TWO63 as real) <= RealValue(Binary64, bits) <= TWO63 as real
    ensures ToInt64(bits, wild).Converted? && RealValue(Binary64, bits) != TWO63 as real ==>
      ToInt64(bits, wild).n as real == RealValue(Binary64, bits)
    ensures Finite(Binary64, bits) && RealValue(Binary64, bits) == TWO63 as real ==>
      ToInt64(bits, wild) == Converted(wild)
  {
    hide RealValue, Truncated, Finite, Integral;
    WholeIsFinite(Binary64, bits);
    if Finite(Binary64, bits) { WholeIsInteger(Binary64, bits); IntegerIsIntegral(TWO63); }
  }

  lemma ToUint64Exact(bits: nat, wild: int)
    ensures ToUint64(bits, wild).Converted? <==>
      Finite(Binary64, bits) && Integral(RealValue(Binary64, bits)) && 0.0 <= RealValue(Binary64, bits) <= TWO64 as real
    ensures ToUint64(bits, wild).Converted? && RealValue(Binary64, bits) != TWO64 as real ==>
      ToUint64(bits, wild).n as real == RealValue(Binary64, bits)
    ensures Finite(Binary64, bits) && RealValue(Binary64, bits) == TWO64 as real ==>
      ToUint64(bits, wild) == Converted(wild)
  {
    hide RealValue, Truncated, Finite, Integral;
    WholeIsFinite(Binary64, bits);
    if Finite(Binary64, bits) { WholeIsInteger(Binary64, bits); IntegerIsIntegral(TWO64); }
  }

  lemma WholeIsFinite(f: Format, bits: nat)
    ensures Whole(f, bits) ==> Finite(f, bits)
  {}

  // ---- widening keeps the value ----

  lemma FieldsOf(f: Format, negative: nat, field: nat, fraction: nat)
    requires negative < 2 && field < Fields(f) && fraction < Hidden(f)
    ensures var bits := Assemble(f, negative, field, fraction);
      Pattern(f, bits) && Field(f, bits) == field && Fraction(f, bits) == fraction && Negative(f, bits) == negative
  {
    if f.Binary32? { FieldsOf32(negative, field, fraction); } else { FieldsOf64(negative, field, fraction); }
  }

  lemma FieldsOf32(negative: nat, field: nat, fraction: nat)
    requires negative < 2 && field < 256 && fraction < 0x80_0000
    ensures var bits := Assemble(Binary32, negative, field, fraction);
      && Pattern(Binary32, bits) && Field(Binary32, bits) == field && Fraction(Binary32, bits) == fraction
      && Negative(Binary32, bits) == negative
  {
    var bits := Assemble(Binary32, negative, field, fraction);
    assert bits == negative * 0x8000_0000 + (field * 0x80_0000 + fraction);
    assert bits / 0x80_0000 == negative * 256 + field;
  }

  lemma FieldsOf64(negative: nat, field: nat, fraction: nat)
    requires negative < 2 && field < 2048 && fraction < 0x10_0000_0000_0000
    ensures var bits := Assemble(Binary64, negative, field, fraction);
      && Pattern(Binary64, bits) && Field(Binary64, bits) == field && Fraction(Binary64, bits) == fraction
      && Negative(Binary64, bits) == negative
  {
    var bits := Assemble(Binary64, negative, field, fraction);
    assert bits == negative * 0x8000_0000_0000_0000 + (field * 0x10_0000_0000_0000 + fraction);
    assert bits / 0x10_0000_0000_0000 == negative * 2048 + field;
  }

  /** Normalizing trades a factor of two for a step of the exponent, and a nonzero fraction
      reaches its implicit bit with exponent to spare. */
  lemma {:induction false} NormalizeValue(frac: nat, exp: nat, k: nat)
    requires k <= exp && 0x80_0000 <= frac * Pow2(k) && 0 < frac < 0x100_0000
    ensures var n := Normalize(frac, exp);
      && 0x80_0000 <= n.frac < 0x100_0000 && exp - k <= n.exp <= exp
      && Scaling(n.frac, n.exp - 1046) == Scaling(frac, exp - 1046)
    decreases exp
  {
    hide RealPow2, Scaling;
    if frac < 0x80_0000 {
      assert k > 0;
      assert 2 * frac * Pow2(k - 1) == frac * Pow2(k);
      NormalizeValue(2 * frac, exp - 1, k - 1);
      Halve(2 * frac, frac, exp - 1 - 1046, exp - 1046);
    }
  }

  lemma Pow2At23()
    ensures Pow2(23) == 0x80_0000 && Pow2(29) == 0x2000_0000
  {
    assert Pow2(5) == 32;
    assert Pow2(10) == 32 * Pow2(5);
    assert Pow2(15) == 32 * Pow2(10);
    assert Pow2(20) == 32 * Pow2(15);
    assert Pow2(26) == 8 * Pow2(23);
    assert Pow2(29) == 8 * Pow2(26);
  }

  /** Moving a significand up by the 29 bits a double has more, and the scale down by as many. */
  lemma Lift(m: nat, x: int)
    ensures Scaling(m * 0x2000_0000, x - 29) == Scaling(m, x)
  {
    hide RealPow2;
    RealPow2Shift(x, 29);
    Pow2At23();
    assert (m * 0x2000_0000) as real == m as real * 0x2000_0000 as real;
  }

  /** The value of a double with a normal 24-bit significand. */
  lemma ValueOfFields(negative: nat, field: nat, m: nat)
    requires negative < 2 && 0 < field < 2047 && 0x80_0000 <= m < 0x100_0000
    ensures var bits := Assemble(Binary64, negative, field, m % 0x80_0000 * 0x2000_0000);
      Finite(Binary64, bits) && RealValue(Binary64, bits) == Real(SignOf(negative), m, field - 1046)
  {
    hide Scaling, Field, Fraction, Negative, Assemble;
    FieldsOf(Binary64, negative, field, m % 0x80_0000 * 0x2000_0000);
    Lift(m, field - 1046);
  }

  lemma ScalingZero(x: int)
    ensures Scaling(0, x) == 0.0
  {}

  /** Converting a finite float32 to a float64 keeps its value, subnormals included. */
  lemma Widen32Exact(bits: nat)
    requires Finite(Binary32, bits)
    ensures Finite(Binary64, Widen32(bits)) && RealValue(Binary64, Widen32(bits)) == RealValue(Binary32, bits)
  {
    hide Scaling, Field, Fraction, Negative, Pow2, Normalize, Assemble;
    var negative, field, frac := Negative(Binary32, bits), Field(Binary32, bits), Fraction(Binary32, bits);
    FieldRange(Binary32, bits);
    if field > 0 {
      ValueOfFields(negative, field + 896, frac + 0x80_0000);
    } else if frac == 0 {
      FieldsOf(Binary64, negative, 0, 0);
      ScalingZero(1 - 150);
      ScalingZero(1 - 1075);
    } else {
      Pow2At23();
      NormalizeValue(frac, 897, 23);
      ValueOfFields(negative, Normalize(frac, 897).exp, Normalize(frac, 897).frac);
    }
  }

  lemma FieldRange(f: Format, bits: nat)
    ensures Field(f, bits) < Fields(f) && Fraction(f, bits) < Hidden(f)
  {}

  // ---- what widening does to everything that is no finite number ----

  predicate Infinite(f: Format, bits: nat) { Field(f, bits) == Fields(f) - 1 && Fraction(f, bits) == 0 }

  /** NaNs go to NaNs, infinities to infinities and nothing else does; the sign is kept, that of
      zero included; and a NaN keeps its payload, with the quiet bit set. */
  lemma Widen32Special(bits: nat)
    requires Pattern(Binary32, bits)
    ensures var wide := Widen32(bits);
      && Pattern(Binary64, wide) && Negative(Binary64, wide) == Negative(Binary32, bits)
      && (NaN(Binary64, wide) <==> NaN(Binary32, bits))
      && (Infinite(Binary64, wide) <==> Infinite(Binary32, bits))
      && (NaN(Binary32, bits) ==>
            Fraction(Binary64, wide) == 0x2000_0000 * (0x40_0000 + Fraction(Binary32, bits) % 0x40_0000))
  {
    hide Field, Fraction, Negative, Assemble, Normalize;
    var negative, field, frac := Negative(Binary32, bits), Field(Binary32, bits), Fraction(Binary32, bits);
    FieldRange(Binary32, bits);
    if field == 255 {
      FieldsOf(Binary64, negative, 2047, 0x2000_0000 * (if 0 < frac < 0x40_0000 then frac + 0x40_0000 else frac));
    } else if field > 0 {
      FieldsOf(Binary64, negative, field + 896, frac * 0x2000_0000);
    } else if frac == 0 {
      FieldsOf(Binary64, negative, 0, 0);
    } else {
      Pow2At23();
      NormalizeValue(frac, 897, 23);
      FieldsOf(Binary64, negative, Normalize(frac, 897).exp, Normalize(frac, 897).frac % 0x80_0000 * 0x2000_0000);
    }
  }

  // ---- landmarks of the two formats ----

  /** One, minus two, the infinities and the ends of the exponent range, by their patterns. */
  lemma Landmarks()
    ensures Finite(Binary32, 0x3f80_0000) && RealValue(Binary32, 0x3f80_0000) == 1.0
    ensures Finite(Binary64, 0x3ff0_0000_0000_0000) && RealValue(Binary64, 0x3ff0_0000_0000_0000) == 1.0
    ensures Finite(Binary32, 0xc000_0000) && RealValue(Binary32, 0xc000_0000) == -2.0
    ensures Finite(Binary64, 0xc000_0000_0000_0000) && RealValue(Binary64, 0xc000_0000_0000_0000) == -2.0
    ensures Infinite(Binary32, 0x7f80_0000) && Infinite(Binary32, 0xff80_0000) && NaN(Binary32, 0x7fc0_0000)
    ensures Infinite(Binary64, 0x7ff0_0000_0000_0000) && Infinite(Binary64, 0xfff0_0000_0000_0000)
    ensures NaN(Binary64, 0x7ff8_0000_0000_0000)
    ensures Finite(Binary32, 0x7f7f_ffff) && Finite(Binary64, 0x7fef_ffff_ffff_ffff)
  {
    hide Scaling;
    FullScale(23, 0x80_0000, 127 - 150);
    FullScale(52, 0x10_0000_0000_0000, 1023 - 1075);
    FullScale(23, 0x80_0000, 128 - 150);
    FullScale(52, 0x10_0000_0000_0000, 1024 - 1075);
  }

  /** 2^k times 2^x, for x just above -k. */
  lemma FullScale(k: nat, m: nat, x: int)
    requires (k == 23 && m == 0x80_0000) || (k == 52 && m == 0x10_0000_0000_0000)
    ensures x == 0 - k ==> Scaling(m, x) == 1.0
    ensures x == 1 - k ==> Scaling(m, x) == 2.0
  {
    hide RealPow2;
    Pow2At52();
    Pow2At23();
    RealOne();
    RealPow2Shift(0, k);
    RealPow2Double(0 - k);
    assert 0 - k + 1 == 1 - k;
  }

  lemma Pow2At52()
    ensures Pow2(52) == 0x10_0000_0000_0000
  {
    assert Pow2(5) == 32;
    assert Pow2(10) == 32 * Pow2(5);
    assert Pow2(15) == 32 * Pow2(10);
    assert Pow2(20) == 32 * Pow2(15);
    assert Pow2(25) == 32 * Pow2(20);
    assert Pow2(30) == 32 * Pow2(25);
    assert Pow2(35) == 32 * Pow2(30);
    assert Pow2(40) == 32 * Pow2(35);
    assert Pow2(45) == 32 * Pow2(40);
    assert Pow2(50) == 32 * Pow2(45);
  }
}
