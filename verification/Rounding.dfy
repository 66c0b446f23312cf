/** Integers as floats: the correctly rounded conversion, to nearest with ties to even. */
module Rounding {
  import opened Bytes
  import opened Floats

  // ---- powers of two ----

  lemma {:induction false} Pow2Grows(a: nat, b: nat)
    requires a <= b
    ensures Pow2(a) <= Pow2(b)
  {
    if a < b { Pow2Grows(a, b - 1); }
  }

  lemma SmallPower(d: nat, b: nat)
    requires Pow2(d) < Pow2(b)
    ensures d < b
  {
    if d >= b { Pow2Grows(b, d); }
  }

  lemma PullTwo(m: nat, k: nat)
    requires k > 0
    ensures m * Pow2(k) == 2 * (m * Pow2(k - 1)) == 2 * m * Pow2(k - 1)
  {}

  lemma AtLeast(m: nat, k: nat)
    requires m > 0
    ensures m * Pow2(k) >= Pow2(k) && m * Pow2(k) >= m
  {}

  /** The implicit bit is the power Digits of two, and 2^Top times it is 2^63. */
  function Digits(f: Format): nat { if f.Binary32? then 23 else 52 }

  function Top(f: Format): nat { if f.Binary32? then 40 else 11 }

  lemma HiddenIsPower(f: Format)
    ensures Pow2(Digits(f)) == Hidden(f) && Pow2(Digits(f) + 1) == 2 * Hidden(f)
    ensures Hidden(f) * Pow2(Top(f)) == TWO63
  {
    assert Pow2(5) == 32;
    assert Pow2(10) == 32 * Pow2(5);
    assert Pow2(15) == 32 * Pow2(10);
    assert Pow2(20) == 32 * Pow2(15);
    assert Pow2(25) == 32 * Pow2(20);
    assert Pow2(30) == 32 * Pow2(25);
    assert Pow2(35) == 32 * Pow2(30);
    assert Pow2(40) == 32 * Pow2(35);
    assert Pow2(45) == 32 * Pow2(40);
    assert Pow2(50) == 32 * Pow2(45);
  }

  // ---- conversion ----

  /** m fills the significand. */
  predicate Full(f: Format, m: nat) { Hidden(f) <= m < 2 * Hidden(f) }

  /** How far m must go down to fit the significand. */
  function Excess(f: Format, m: nat): nat {
    if m < 2 * Hidden(f) then 0 else 1 + Excess(f, m / 2)
  }

  /** How far m must go up to fill the significand. */
  function Deficit(f: Format, m: nat): (d: nat)
    requires 0 < m < 2 * Hidden(f)
    ensures Full(f, m * Pow2(d))
    decreases Hidden(f) - m
  {
    if m >= Hidden(f) then 0 else PullTwo(m, 1 + Deficit(f, 2 * m)); 1 + Deficit(f, 2 * m)
  }

  /** m / 2^k to the nearest integer, ties to even. */
  function RoundShift(m: nat, k: nat): nat {
    var p := Pow2(k);
    var q, r := m / p, m % p;
    if 2 * r > p || (2 * r == p && q % 2 == 1) then q + 1 else q
  }

  /** The pattern of a magnitude. A significand that rounds up beyond its last value carries
      into the exponent. */
  function Magnitude(f: Format, m: nat): nat {
    if m == 0 then 0
    else if m < 2 * Hidden(f) then
      var d := Deficit(f, m);
      DeficitSmall(f, m);
      (Bias(f) - 1 - d) * Hidden(f) + m * Pow2(d)
    else (Bias(f) - 1 + Excess(f, m)) * Hidden(f) + RoundShift(m, Excess(f, m))
  }

  /** float32(n) or float64(n) for an integer n. */
  function FromInt64(f: Format, n: int): nat {
    if n < 0 then SignBit(f) + Magnitude(f, 0 - n) else Magnitude(f, n)
  }

  lemma DeficitSmall(f: Format, m: nat)
    requires 0 < m < 2 * Hidden(f)
    ensures Deficit(f, m) <= Digits(f)
  {
    hide Deficit;
    AtLeast(m, Deficit(f, m));
    HiddenIsPower(f);
    SmallPower(Deficit(f, m), Digits(f) + 1);
  }

  // ---- exact where exactness is possible ----

  lemma {:induction false} ExcessOf(f: Format, m: nat, x: nat)
    requires Full(f, m)
    ensures Excess(f, m * Pow2(x)) == x
  {
    if x == 0 {
    } else {
      ExcessOf(f, m, x - 1);
      AtLeast(m, x - 1);
      PullTwo(m, x);
    }
  }

  lemma {:induction false} DeficitOf(f: Format, j: nat, k: nat)
    requires 0 < j < 2 * Hidden(f) && Full(f, j * Pow2(k))
    ensures Deficit(f, j) == k
    decreases k
  {
    if k == 0 {
    } else {
      PullTwo(j, k);
      AtLeast(j, k - 1);
      DeficitOf(f, 2 * j, k - 1);
    }
  }

  lemma RoundExact(m: nat, k: nat)
    ensures RoundShift(m * Pow2(k), k) == m
  {
    hide Pow2;
    DivideProduct(m, Pow2(k));
  }

  lemma DivideProduct(m: nat, p: nat)
    requires p > 0
    ensures m * p / p == m && m * p % p == 0
  {
    var q, r := m * p / p, m * p % p;
    assert (m - q) * p == r;
    if m > q { AtLeastFactor(m - q, p); }
  }

  lemma AtLeastFactor(a: nat, p: nat)
    requires a > 0
    ensures a * p >= p
  {}

  lemma {:induction false} MultipleIsProduct(m: nat, k: nat)
    requires Multiple(m, k)
    ensures m == Shifted(m, k) * Pow2(k)
    decreases k
  {
    if k == 0 {
    } else {
      MultipleIsProduct(m / 2, k - 1);
      PullTwo(Shifted(m, k), k);
    }
  }

  /** The pattern of m * 2^x for a full significand m. */
  lemma MagnitudeOf(f: Format, v: nat, m: nat, x: int)
    requires Full(f, m)
    requires if x >= 0 then v == m * Pow2(x) else v * Pow2(0 - x) == m && v > 0
    ensures Magnitude(f, v) == (Bias(f) - 1 + x) * Hidden(f) + m
  {
    hide Excess, Deficit, RoundShift, Pow2, Bias;
    if x < 0 {
      AtLeast(v, 0 - x);
      DeficitOf(f, v, 0 - x);
    } else if x == 0 {
      ZeroPower();
      DeficitOf(f, v, 0);
    } else {
      PullTwo(m, x);
      AtLeast(m, x - 1);
      ExcessOf(f, m, x);
      RoundExact(m, x);
    }
  }

  lemma ZeroPower()
    ensures Pow2(0) == 1
  {}

  lemma BitsByFields(f: Format, bits: nat)
    requires Pattern(f, bits)
    ensures bits == Negative(f, bits) * SignBit(f) + Field(f, bits) * Hidden(f) + Fraction(f, bits)
    ensures Fraction(f, bits) < Hidden(f) && Field(f, bits) < Fields(f)
  {
    if f.Binary32? {
      assert bits / 0x80_0000 / 256 == bits / 0x8000_0000;
    } else {
      assert bits / 0x10_0000_0000_0000 / 2048 == bits / 0x8000_0000_0000_0000;
    }
  }

  /** No subnormal is whole except zero. */
  lemma SubnormalNotWhole(f: Format, bits: nat)
    requires Whole(f, bits) && Field(f, bits) == 0
    ensures Fraction(f, bits) == 0
  {
    hide Multiple, Shifted, Pow2, Field;
    var m := Fraction(f, bits);
    MultipleIsProduct(m, Bias(f) - 1);
    if m > 0 {
      HiddenIsPower(f);
      Pow2Grows(Digits(f), Bias(f) - 1);
      if Shifted(m, Bias(f) - 1) > 0 { AtLeast(Shifted(m, Bias(f) - 1), Bias(f) - 1); }
    }
  }

  /** A float that is a whole number comes back from the integer it denotes, bit for bit, with
      negative zero the one exception. */
  lemma WholeComesBack(f: Format, bits: nat)
    requires Pattern(f, bits) && Whole(f, bits) && bits != SignBit(f)
    ensures FromInt64(f, Truncated(f, bits)) == bits
  {
    hide Multiple, Shifted, Pow2, Field, Fraction, Negative, Magnitude;
    BitsByFields(f, bits);
    if Field(f, bits) == 0 {
      SubnormalNotWhole(f, bits);
      ZeroWhole(f, bits);
    } else {
      var m, x := Significand(f, bits), Scale(f, bits);
      var v := if x >= 0 then m * Pow2(x) else Shifted(m, 0 - x);
      if x < 0 { MultipleIsProduct(m, 0 - x); } else { AtLeast(m, x); }
      PositiveFactor(v, m, x);
      MagnitudeOf(f, v, m, x);
      assert Truncated(f, bits) == Sign(f, bits) * v;
    }
  }

  lemma PositiveFactor(v: nat, m: nat, x: int)
    requires m > 0 && if x >= 0 then v >= m else v * Pow2(0 - x) == m
    ensures v > 0
  {}

  lemma ZeroWhole(f: Format, bits: nat)
    requires Whole(f, bits) && Field(f, bits) == 0 && Fraction(f, bits) == 0
    ensures Truncated(f, bits) == 0 && Magnitude(f, 0) == 0
  {
    hide Pow2, Multiple, Field, Fraction;
    MultipleIsProduct(0, Bias(f) - 1);
    if Shifted(0, Bias(f) - 1) > 0 { AtLeast(Shifted(0, Bias(f) - 1), Bias(f) - 1); }
  }

  // ---- every conversion gives a whole number in range ----

  lemma {:induction false} ProductIsMultiple(v: nat, k: nat)
    ensures Multiple(v * Pow2(k), k) && Shifted(v * Pow2(k), k) == v
  {
    if k == 0 {
    } else {
      PullTwo(v, k);
      ProductIsMultiple(v, k - 1);
    }
  }

  lemma {:induction false} ExcessFills(f: Format, m: nat)
    requires m >= Hidden(f)
    ensures Hidden(f) * Pow2(Excess(f, m)) <= m < 2 * Hidden(f) * Pow2(Excess(f, m))
  {
    if m >= 2 * Hidden(f) {
      ExcessFills(f, m / 2);
      PullTwo(Hidden(f), Excess(f, m));
      PullTwo(2 * Hidden(f), Excess(f, m));
    }
  }

  lemma QuotientBounds(m: nat, p: nat, lo: nat, hi: nat)
    requires p > 0 && lo * p <= m < hi * p
    ensures lo <= m / p < hi
  {
    var q := m / p;
    assert q * p <= m < (q + 1) * p;
    if q < lo { AtMost(q + 1, lo, p); }
    if q >= hi { AtMost(hi, q, p); }
  }

  lemma AtMost(a: nat, b: nat, p: nat)
    requires a <= b
    ensures a * p <= b * p
  {}

  /** The significand and the scale a conversion settles on: exact below the precision, the
      rounded quotient above it. */
  lemma MagnitudeShape(f: Format, v: nat) returns (m: nat, x: int)
    requires 0 < v <= TWO63
    ensures Full(f, m) && 0 - Digits(f) <= x <= Top(f)
    ensures Magnitude(f, v) == (Bias(f) - 1 + x) * Hidden(f) + m
    ensures x == Top(f) ==> m == Hidden(f)
    ensures x < 0 ==> Multiple(m, 0 - x) && Shifted(m, 0 - x) == v < 2 * Hidden(f)
    ensures x >= 0 ==> m * Pow2(x) == RoundShift(v, Excess(f, v)) * Pow2(Excess(f, v))
    ensures v < 2 * Hidden(f) ==> Excess(f, v) == 0 && (x >= 0 ==> m * Pow2(x) == v)
  {
    hide Deficit, RoundShift, Pow2, Multiple, Shifted, Bias;
    HiddenIsPower(f);
    ZeroPower();
    RoundExact(v, 0);
    if v < 2 * Hidden(f) {
      DeficitSmall(f, v);
      m, x := v * Pow2(Deficit(f, v)), 0 - Deficit(f, v);
      ProductIsMultiple(v, Deficit(f, v));
    } else if v == TWO63 {
      m, x := Hidden(f), Top(f);
      MagnitudeOf(f, v, m, x);
      ExcessOf(f, m, x);
      RoundExact(m, x);
    } else {
      var k := Excess(f, v);
      ExcessFills(f, v);
      ExcessSmall(f, v);
      RoundBounds(f, v, k);
      m, x := RoundShift(v, k), k;
      if m == 2 * Hidden(f) {
        m, x := Hidden(f), k + 1;
        PullTwo(m, x);
      }
    }
  }

  lemma ExcessSmall(f: Format, v: nat)
    requires 2 * Hidden(f) <= v < TWO63
    ensures Excess(f, v) < Top(f)
  {
    hide Excess, Pow2, Top;
    ExcessFills(f, v);
    HiddenIsPower(f);
    if Excess(f, v) >= Top(f) {
      Pow2Grows(Top(f), Excess(f, v));
    }
  }

  lemma RoundBounds(f: Format, v: nat, k: nat)
    requires Hidden(f) * Pow2(k) <= v < 2 * Hidden(f) * Pow2(k)
    ensures Hidden(f) <= RoundShift(v, k) <= 2 * Hidden(f)
  {
    hide Pow2;
    QuotientBounds(v, Pow2(k), Hidden(f), 2 * Hidden(f));
  }

  /** The fields of a converted number. */
  lemma ConversionFields(f: Format, n: int) returns (m: nat, x: int)
    requires -TWO63 <= n < TWO63 && n != 0
    ensures Full(f, m) && 0 - Digits(f) <= x <= Top(f) && (x == Top(f) ==> m == Hidden(f))
    ensures var v := if n < 0 then 0 - n else n;
      && (x < 0 ==> Multiple(m, 0 - x) && Shifted(m, 0 - x) == v < 2 * Hidden(f))
      && (x >= 0 ==> m * Pow2(x) == RoundShift(v, Excess(f, v)) * Pow2(Excess(f, v)))
      && (v < 2 * Hidden(f) ==> Excess(f, v) == 0 && (x >= 0 ==> m * Pow2(x) == v))
    ensures var b := FromInt64(f, n);
      && Pattern(f, b) && b != SignBit(f) && Finite(f, b)
      && Sign(f, b) == (if n < 0 then -1 else 1) && Significand(f, b) == m && Scale(f, b) == x
  {
    hide Magnitude, Multiple, Shifted, Pow2, Excess, RoundShift, Field, Fraction, Negative;
    m, x := MagnitudeShape(f, if n < 0 then 0 - n else n);
    var negative := if n < 0 then 1 else 0;
    SplitBits(f, negative, m, x);
    FieldsOf(f, negative, Bias(f) + x, m - Hidden(f));
  }

  lemma SplitBits(f: Format, negative: nat, m: nat, x: int)
    requires negative < 2 && Full(f, m) && 0 - Digits(f) <= x <= Top(f)
    ensures negative * SignBit(f) + ((Bias(f) - 1 + x) * Hidden(f) + m)
         == Assemble(f, negative, Bias(f) + x, m - Hidden(f))
    ensures negative * SignBit(f) + ((Bias(f) - 1 + x) * Hidden(f) + m) != SignBit(f)
  {
    if f.Binary32? {} else {}
  }

  /** The conversion of an int64 is a whole number between -2^63 and 2^63, never negative zero. */
  lemma ConversionInRange(f: Format, n: int)
    requires -TWO63 <= n < TWO63
    ensures Pattern(f, FromInt64(f, n)) && FromInt64(f, n) != SignBit(f)
    ensures Whole(f, FromInt64(f, n)) && -TWO63 <= Truncated(f, FromInt64(f, n)) <= TWO63
  {
    hide Magnitude, Multiple, Shifted, Pow2, Field, Fraction, Negative, RoundShift, Excess, Significand, Scale;
    if n == 0 {
      ZeroPattern(f);
    } else {
      var m, x := ConversionFields(f, n);
      if x >= 0 { ScaledBound(f, m, x); }
    }
  }

  lemma ZeroPattern(f: Format)
    ensures FromInt64(f, 0) == 0 && Whole(f, 0) && Truncated(f, 0) == 0 && Field(f, 0) == 0 && Fraction(f, 0) == 0
  {
    hide Multiple, Shifted, Pow2;
    ProductIsMultiple(0, Bias(f) - 1);
  }

  lemma ScaledBound(f: Format, m: nat, x: nat)
    requires Full(f, m) && x <= Top(f) && (x == Top(f) ==> m == Hidden(f))
    ensures m * Pow2(x) <= TWO63
  {
    hide Pow2;
    HiddenIsPower(f);
    if x < Top(f) {
      Pow2Grows(x, Top(f) - 1);
      PullTwo(Hidden(f), Top(f));
      AtMost(Pow2(x), Pow2(Top(f) - 1), m);
      AtMost(m, 2 * Hidden(f), Pow2(Top(f) - 1));
    }
  }

  // ---- nothing is nearer ----

  function Distance(a: real, b: real): real { if a <= b then b - a else a - b }

  function Gap(a: int, b: int): nat { if a <= b then b - a else a - b }

  /** No multiple of 2^k is nearer to v than the rounded one, and a tie goes to the even one. */
  lemma RoundNearest(v: nat, k: nat, q: nat)
    ensures var r := RoundShift(v, k);
      && Gap(r * Pow2(k), v) <= Gap(q * Pow2(k), v)
      && (Gap(r * Pow2(k), v) == Gap(q * Pow2(k), v) && q != r ==> r % 2 == 0)
  {
    hide Pow2;
    var p := Pow2(k);
    var a, r := v / p, RoundShift(v, k);
    ProductSteps(a, q, p);
    ProductSteps(a, r, p);
    NearestOfTwo(v, p, a, v % p, q, r, a * p, q * p, r * p);
  }

  lemma ProductSteps(a: nat, q: nat, p: nat)
    ensures q < a ==> q * p <= a * p - p
    ensures q == a + 1 ==> q * p == a * p + p
    ensures q > a + 1 ==> q * p >= a * p + 2 * p
  {
    if q < a { AtMost(q, a - 1, p); assert (a - 1) * p == a * p - p; }
    if q > a + 1 { AtMost(a + 2, q, p); assert (a + 2) * p == a * p + 2 * p; }
  }

  /** The same with the products named: ap, qp and rp are a, q and r times p. */
  lemma NearestOfTwo(v: nat, p: nat, a: nat, rest: nat, q: nat, r: nat, ap: int, qp: int, rp: int)
    requires v == ap + rest && rest < p
    requires r == if 2 * rest > p || (2 * rest == p && a % 2 == 1) then a + 1 else a
    requires rp == if r == a then ap else ap + p
    requires
      if q < a then qp <= ap - p else if q == a then qp == ap
      else if q == a + 1 then qp == ap + p else qp >= ap + 2 * p
    ensures Gap(rp, v) <= Gap(qp, v) && (Gap(rp, v) == Gap(qp, v) && q != r ==> r % 2 == 0)
  {}

  /** The magnitude a conversion denotes. */
  function Rounded(f: Format, v: nat): nat { RoundShift(v, Excess(f, v)) * Pow2(Excess(f, v)) }

  lemma ConversionValue(f: Format, n: int)
    requires -TWO63 <= n < TWO63
    ensures Finite(f, FromInt64(f, n))
    ensures RealValue(f, FromInt64(f, n))
         == if n < 0 then -(Rounded(f, 0 - n) as real) else Rounded(f, n) as real
  {
    hide Pow2, RoundShift, Excess, Field, Fraction, Negative, Significand, Scale, Multiple, Shifted,
      Magnitude, Scaling;
    ZeroPower();
    if n == 0 {
      ZeroValue(f);
    } else {
      var v := if n < 0 then 0 - n else n;
      var m, x := ConversionFields(f, n);
      if x >= 0 {
        WholeProduct(m, x);
      } else {
        MultipleIsIntegral(m, 0 - x);
        assert 0 - (0 - x) == x;
        RoundExact(v, 0);
      }
    }
  }

  lemma ZeroValue(f: Format)
    ensures Finite(f, FromInt64(f, 0)) && RealValue(f, FromInt64(f, 0)) == 0.0 && Rounded(f, 0) == 0
  {
    hide Scaling, Pow2;
    ZeroPattern(f);
    ScalingZero(1 - Bias(f));
    RoundExact(0, 0);
  }

  lemma {:induction false} Pow2Sum(a: nat, b: nat)
    ensures Pow2(a + b) == Pow2(a) * Pow2(b)
  {
    if a > 0 { Pow2Sum(a - 1, b); }
  }

  /** Above the scale of the last place, values are multiples of it. */
  lemma CoarseValue(m: nat, x: int, k: nat) returns (q: nat)
    requires x >= k
    ensures Scaling(m, x) == (q * Pow2(k)) as real
  {
    hide Pow2, Scaling;
    q := m * Pow2(x - k);
    WholeProduct(m, x);
    Pow2Sum(x - k, k);
    assert m * (Pow2(x - k) * Pow2(k)) == m * Pow2(x - k) * Pow2(k);
  }

  /** Below it, they do not reach the range being rounded. */
  lemma FineValue(m: nat, h: nat, x: int, k: nat)
    requires x < k && k > 0 && m < 2 * h
    ensures Scaling(m, x) < (h * Pow2(k)) as real
  {
    hide RealPow2, Pow2;
    RealPow2Shift(k - 1, k - 1 - x);
    PositivePower(x);
    ScaleUp(m as real, 2 * h, RealPow2(x), Pow2(k - 1 - x), RealPow2(k - 1));
    WholeProduct(2 * h, k - 1);
    PullTwo(h, k);
  }

  lemma ScaleUp(m: real, h: nat, r: real, p: nat, s: real)
    requires 0.0 <= m < h as real && r > 0.0 && p >= 1 && s == p as real * r
    ensures m * r < h as real * s
  {
    assert s >= r;
    assert m * r < h as real * r;
    assert h as real * r <= h as real * s;
  }

  lemma PositivePower(x: int)
    ensures RealPow2(x) > 0.0
  {}

  lemma NearestMagnitude(f: Format, v: nat, m: nat, x: int)
    requires m < 2 * Hidden(f)
    ensures var r, y := Rounded(f, v) as real, Scaling(m, x);
      && Distance(r, v as real) <= Distance(y, v as real)
      && (Distance(r, v as real) == Distance(y, v as real) && r != y ==>
            v >= 2 * Hidden(f) && RoundShift(v, Excess(f, v)) % 2 == 0)
  {
    hide Pow2, RoundShift, Scaling, RealPow2, Hidden;
    var k := Excess(f, v);
    ZeroPower();
    RoundExact(v, 0);
    if x >= k {
      var q := CoarseValue(m, x, k);
      RoundNearest(v, k, q);
    } else if k > 0 {
      FineValue(m, Hidden(f), x, k);
      RoundNearest(v, k, Hidden(f));
      ExcessFills(f, v);
    }
  }

  lemma PatternParity(f: Format, n: int)
    requires n >= 2 * Hidden(f) || n <= -2 * Hidden(f)
    ensures var v := if n < 0 then 0 - n else n;
      FromInt64(f, n) % 2 == RoundShift(v, Excess(f, v)) % 2
  {
    hide Magnitude, RoundShift, Excess, Hidden;
    var v := if n < 0 then 0 - n else n;
    MagnitudeParity(f, v);
    EvenLandmarks(f);
  }

  lemma MagnitudeParity(f: Format, v: nat)
    requires v >= 2 * Hidden(f)
    ensures Magnitude(f, v) % 2 == RoundShift(v, Excess(f, v)) % 2
  {
    hide RoundShift, Excess, Bias, Hidden, Deficit;
    EvenLandmarks(f);
    EvenProduct(Bias(f) - 1 + Excess(f, v), Hidden(f) / 2, RoundShift(v, Excess(f, v)));
  }

  lemma EvenLandmarks(f: Format)
    ensures Hidden(f) == 2 * (Hidden(f) / 2) && SignBit(f) % 2 == 0 && Hidden(f) > 0
  {}

  lemma EvenProduct(e: int, g: int, q: int)
    ensures (e * (2 * g) + q) % 2 == q % 2
  {
    assert e * (2 * g) == 2 * (e * g);
  }

  /** The conversion is to nearest with ties to even: no finite float is nearer to n than
      float(n), and if another is as near, the last bit of float(n) is clear. */
  lemma ToNearestEven(f: Format, n: int, c: nat)
    requires -TWO63 <= n < TWO63 && Finite(f, c)
    ensures Finite(f, FromInt64(f, n))
    ensures var near, far := RealValue(f, FromInt64(f, n)), RealValue(f, c);
      && Distance(near, n as real) <= Distance(far, n as real)
      && (Distance(near, n as real) == Distance(far, n as real) && near != far ==> FromInt64(f, n) % 2 == 0)
    ensures -2 * Hidden(f) <= n <= 2 * Hidden(f) ==> RealValue(f, FromInt64(f, n)) == n as real
  {
    hide Pow2, RoundShift, Scaling, RealPow2, Excess, Field, Fraction, Negative, FromInt64;
    var v := if n < 0 then 0 - n else n;
    var m, x := Significand(f, c), Scale(f, c);
    ConversionValue(f, n);
    SignificandBound(f, c);
    ScalingPositive(m, x);
    NearestMagnitude(f, v, m, x);
    NearestMagnitude(f, v, 0, x);
    ScalingZero(x);
    if v >= 2 * Hidden(f) { PatternParity(f, n); }
    SmallExact(f, v);
  }

  lemma SignificandBound(f: Format, bits: nat)
    ensures Significand(f, bits) < 2 * Hidden(f)
  {}

  lemma ScalingPositive(m: nat, x: int)
    ensures Scaling(m, x) >= 0.0
  {
    PositivePower(x);
  }

  lemma SmallExact(f: Format, v: nat)
    ensures v <= 2 * Hidden(f) ==> Rounded(f, v) == v
  {
    hide Pow2, RoundShift;
    ZeroPower();
    RoundExact(v, 0);
    if v == 2 * Hidden(f) {
      assert Excess(f, v) == 1;
      PullTwo(Hidden(f), 1);
      RoundExact(Hidden(f), 1);
    }
  }

  // ---- cutting off at the point ----

  lemma ScalingGrows(m: nat, n: nat, x: int)
    requires m < n
    ensures Scaling(m, x) < Scaling(n, x)
  {
    hide RealPow2;
    PositivePower(x);
    TimesPositive(m as real, n as real, RealPow2(x));
  }

  lemma TimesPositive(a: real, b: real, r: real)
    requires a < b && r > 0.0
    ensures a * r < b * r
  {}

  /** Shifting right by k is dividing by 2^k and dropping the fraction. */
  lemma {:induction false} ShiftedIsFloor(m: nat, k: nat)
    ensures Shifted(m, k) as real <= Scaling(m, 0 - k) && Scaling(m + 1, 0 - k) <= Shifted(m, k) as real + 1.0
    decreases k
  {
    hide RealPow2, Scaling;
    if k == 0 {
      ScalingByOne(m);
      ScalingByOne(m + 1);
    } else {
      var h := m / 2;
      ShiftedIsFloor(h, k - 1);
      Halve(2 * h, h, 0 - k, 0 - (k - 1));
      Halve(2 * (h + 1), h + 1, 0 - k, 0 - (k - 1));
      if m > 2 * h { ScalingGrows(2 * h, m, 0 - k); } else { ScalingGrows(m + 1, 2 * (h + 1), 0 - k); }
    }
  }

  /** Truncation goes towards zero: the integer is no farther from zero than the value, by less
      than one, and on the same side. */
  lemma TruncatedTowardsZero(f: Format, bits: nat)
    requires Finite(f, bits)
    ensures var r, t := RealValue(f, bits), Truncated(f, bits) as real;
      (0.0 <= t <= r < t + 1.0) || (t - 1.0 < r <= t <= 0.0)
  {
    hide Pow2, RealPow2, Scaling, Field, Fraction, Negative, Shifted;
    var x, m := Scale(f, bits), Significand(f, bits);
    if x >= 0 {
      WholeProduct(m, x);
    } else {
      ShiftedIsFloor(m, 0 - x);
      assert 0 - (0 - x) == x;
      ScalingGrows(m, m + 1, x);
    }
  }
}
