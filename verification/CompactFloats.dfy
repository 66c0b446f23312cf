/** Floats written as integers where nothing is lost, and read back as floats. */
module CompactFloats {
  import opened Bytes
  import opened Codes
  import opened Buffers
  import opened Wire
  import opened Floats
  import opened Rounding
  import Numbers

  // ---- comparison ----

  /** The == of two floats: NaN equals nothing, the two zeros equal each other. */
  predicate Equal(f: Format, a: nat, b: nat) {
    !NaN(f, a) && !NaN(f, b) && (a == b || (Zero(f, a) && Zero(f, b)))
  }

  predicate Zero(f: Format, bits: nat) { bits == 0 || bits == SignBit(f) }

  lemma CancelFactor(a: real, b: real, r: real)
    requires r > 0.0 && a * r == b * r
    ensures a == b
  {}

  lemma ScalingSign(m: nat, x: int)
    ensures Scaling(m, x) >= 0.0 && (Scaling(m, x) == 0.0 <==> m == 0)
  {
    hide RealPow2;
    PositivePower(x);
    if m > 0 { PositiveProduct(m as real, RealPow2(x)); }
  }

  lemma PositiveProduct(a: real, b: real)
    requires a > 0.0 && b > 0.0
    ensures a * b > 0.0
  {}

  /** A value has one significand and scale once the significand is full or the scale least. */
  lemma UniqueScaling(h: nat, m: nat, x: int, n: nat, y: int)
    requires m < 2 * h && x <= y && (x < y ==> n >= h) && Scaling(m, x) == Scaling(n, y)
    ensures m == n && x == y
  {
    hide RealPow2;
    RealPow2Shift(y, y - x);
    PositivePower(x);
    var p := Pow2(y - x);
    assert n as real * (p as real * RealPow2(x)) == (n as real * p as real) * RealPow2(x);
    CancelFactor(m as real, n as real * p as real, RealPow2(x));
    CastProduct(n, p);
    Doubles(n, y - x);
  }

  lemma Doubles(n: nat, k: nat)
    ensures if k == 0 then n * Pow2(k) == n else n * Pow2(k) >= 2 * n
  {
    if k > 0 && n > 0 {
      PullTwo(n, k);
      AtLeast(n, k - 1);
    }
  }

  /** Comparing patterns is comparing the numbers they denote; an infinity equals itself only, and
      a NaN nothing. */
  lemma EqualIsNumeric(f: Format, a: nat, b: nat)
    requires Pattern(f, a) && Pattern(f, b)
    ensures NaN(f, a) || NaN(f, b) ==> !Equal(f, a, b)
    ensures Infinite(f, a) ==> (Equal(f, a, b) <==> a == b)
    ensures Finite(f, a) && Infinite(f, b) ==> !Equal(f, a, b)
    ensures Finite(f, a) && Finite(f, b) ==> (Equal(f, a, b) <==> RealValue(f, a) == RealValue(f, b))
  {
    hide Scaling, RealPow2, Field, Fraction, Negative, RealValue;
    ZeroFields(f);
    if Finite(f, a) && Finite(f, b) { FiniteEqual(f, a, b); }
  }

  lemma FiniteEqual(f: Format, a: nat, b: nat)
    requires Pattern(f, a) && Pattern(f, b) && Finite(f, a) && Finite(f, b)
    ensures Equal(f, a, b) <==> RealValue(f, a) == RealValue(f, b)
  {
    hide Scaling, RealPow2, Field, Fraction, Negative;
    BitsByFields(f, a);
    BitsByFields(f, b);
    ScalingSign(Significand(f, a), Scale(f, a));
    ScalingSign(Significand(f, b), Scale(f, b));
    ZeroBySignificand(f, a);
    ZeroBySignificand(f, b);
    if RealValue(f, a) == RealValue(f, b) && !Zero(f, a) {
      if Scale(f, a) <= Scale(f, b) {
        UniqueScaling(Hidden(f), Significand(f, a), Scale(f, a), Significand(f, b), Scale(f, b));
      } else {
        UniqueScaling(Hidden(f), Significand(f, b), Scale(f, b), Significand(f, a), Scale(f, a));
      }
    }
  }

  lemma ZeroBySignificand(f: Format, bits: nat)
    requires Pattern(f, bits)
    ensures Zero(f, bits) <==> Significand(f, bits) == 0
  {
    hide Field, Fraction, Negative;
    BitsByFields(f, bits);
    ZeroFields(f);
  }

  lemma ZeroFields(f: Format)
    ensures Field(f, 0) == 0 && Fraction(f, 0) == 0 && Field(f, SignBit(f)) == 0 && Fraction(f, SignBit(f)) == 0
  {}

  // ---- the compact form ----

  function Size(f: Format): nat { if f.Binary32? then 4 else 8 }

  function FormatOf(width: nat): Format { if width == 4 then Binary32 else Binary64 }

  /** int64(x): cut off at the point, and whatever the hardware yields out of range. */
  function HardwareInt64(f: Format, bits: nat, wild: int): int {
    if Finite(f, bits) && -TWO63 <= Truncated(f, bits) < TWO63 then Truncated(f, bits) else wild
  }

  lemma HardwareRange(f: Format, bits: nat, wild: int)
    requires -TWO63 <= wild < TWO63
    ensures -TWO63 <= HardwareInt64(f, bits, wild) < TWO63
  {}

  lemma FloatValid(f: Format, bits: nat)
    requires Pattern(f, bits)
    ensures Valid(WFloat(Size(f), bits))
  {
    PowValues();
  }

  /** The form EncodeFloat32 or EncodeFloat64 chooses when floats may be compacted. */
  function CompactForm(f: Format, bits: nat, wild: int): (w: Wire)
    requires Pattern(f, bits) && -TWO63 <= wild < TWO63
    ensures Valid(w)
  {
    var n := HardwareInt64(f, bits, wild);
    FloatValid(f, bits);
    Numbers.SmallestIntValid(n);
    if Equal(f, FromInt64(f, n), bits) then Numbers.SmallestInt(n) else WFloat(Size(f), bits)
  }

  lemma CompactShape(f: Format, bits: nat, wild: int)
    requires Pattern(f, bits) && -TWO63 <= wild < TWO63
    ensures CompactForm(f, bits, wild) == Numbers.SmallestInt(HardwareInt64(f, bits, wild))
         || CompactForm(f, bits, wild) == WFloat(Size(f), bits)
  {
    hide HardwareInt64, Equal, FromInt64, Numbers.SmallestInt;
  }

  /** What DecodeFloat32 or DecodeFloat64 makes of a value. A double where a float32 is wanted
      goes through the integer decoder. */
  function FloatOf(f: Format, w: Wire, wild: int): Option<nat> {
    if w.WFloat? && f.Binary64? then Some(Numbers.Double(w.width, w.bits))
    else if w.WFloat? && w.width == 4 then Some(w.bits)
    else match Numbers.Int64Of(w, wild) case None => None case Some(n) => Some(FromInt64(f, n))
  }

  function FloatAt(f: Format, input: bytes, pos: nat, wild: int): Outcome<nat> {
    match Parse(input, pos)
    case Err => Err
    case Ok(w, e) => (match FloatOf(f, w, wild) case None => Err case Some(x) => Ok(x, e))
  }

  /** How DecodeFloat64 reads a value, code by code. */
  lemma FloatByCode(input: bytes, pos: nat, c: byte, wild: int)
    requires pos < |input| && c == input[pos]
    ensures c == FLOAT || c == DOUBLE ==>
      FloatAt(Binary64, input, pos, wild)
      == (match Arg(input, pos + 1, c)
          case Err => Err
          case Ok(a, p) => Ok(Numbers.Double(ArgWidth(c), a), p))
    ensures c != FLOAT && c != DOUBLE ==>
      FloatAt(Binary64, input, pos, wild)
      == (match Numbers.IntAt(input, pos, wild) case Err => Err case Ok(n, e) => Ok(FromInt64(Binary64, n), e))
  {
    hide Parse, Arg, FromInt64, Numbers.Double;
    Numbers.ParseByCode(input, pos, c);
  }

  /** How DecodeFloat32 reads a value, code by code. */
  lemma Float32ByCode(input: bytes, pos: nat, c: byte, wild: int)
    requires pos < |input| && c == input[pos]
    ensures c == FLOAT ==>
      FloatAt(Binary32, input, pos, wild)
      == (match Arg(input, pos + 1, c) case Err => Err case Ok(a, p) => Ok(a, p))
    ensures c != FLOAT ==>
      FloatAt(Binary32, input, pos, wild)
      == (match Numbers.IntAt(input, pos, wild) case Err => Err case Ok(n, e) => Ok(FromInt64(Binary32, n), e))
  {
    hide Parse, Arg, FromInt64, Numbers.Double, Numbers.Int64Of;
    Numbers.ParseByCode(input, pos, c);
    Numbers.FloatOnlyByCode(input, pos, c);
  }

  /** Compact encoding, then float decoding, gives back every float bit for bit, NaNs and
      infinities included and whatever the two out-of-range conversions yield, except that
      negative zero becomes zero. */
  lemma CompactRoundTrip(f: Format, bits: nat, wild: int, other: int)
    requires Pattern(f, bits) && -TWO63 <= wild < TWO63
    ensures FloatOf(f, CompactForm(f, bits, wild), other)
         == Some(if bits == SignBit(f) then 0 else bits)
  {
    hide Truncated, Finite, FromInt64, Numbers.SmallestInt, NaN;
    var n := HardwareInt64(f, bits, wild);
    Numbers.SmallestIntRoundTrip(n, WNil, other);
    IntegerFormNotFloat(n);
    ConversionInRange(f, n);
    FloatValid(f, bits);
    if Zero(f, bits) { ZerosCompact(f, bits, wild); }
  }

  lemma ZerosCompact(f: Format, bits: nat, wild: int)
    requires Zero(f, bits) && -TWO63 <= wild < TWO63
    ensures HardwareInt64(f, bits, wild) == 0 && FromInt64(f, 0) == 0 && CompactForm(f, bits, wild) == WFix(0)
  {
    hide Field, Fraction, Multiple, Shifted, Pow2, Magnitude;
    ZeroPattern(f);
    ZeroFields(f);
    ZeroIsWhole(f, bits);
  }

  /** The integer form is taken exactly for the whole numbers an int64 holds, and for 2^63 if
      the hardware's answer for it rounds back to 2^63 (a saturating conversion's does). The
      integer written is the number itself in the first case, and never in the second. */
  lemma CompactWhen(f: Format, bits: nat, wild: int)
    requires Pattern(f, bits) && -TWO63 <= wild < TWO63
    ensures !CompactForm(f, bits, wild).WFloat? <==>
      && Finite(f, bits) && Integral(RealValue(f, bits))
      && (|| -(TWO63 as real) <= RealValue(f, bits) < TWO63 as real
          || (RealValue(f, bits) == TWO63 as real && FromInt64(f, wild) == bits))
    ensures !CompactForm(f, bits, wild).WFloat? ==>
      var n := HardwareInt64(f, bits, wild);
      && CompactForm(f, bits, wild) == Numbers.SmallestInt(n)
      && (n as real == RealValue(f, bits) <==> RealValue(f, bits) != TWO63 as real)
  {
    hide Truncated, Finite, FromInt64, RealValue, Integral, Whole, NaN, Numbers.SmallestInt;
    var n := HardwareInt64(f, bits, wild);
    ConversionInRange(f, n);
    WholeIsFinite(f, FromInt64(f, n));
    WholeIsFinite(f, bits);
    NotNaN(f, FromInt64(f, n));
    NotNaN(f, bits);
    IntegerFormNotFloat(n);
    if Zero(f, bits) {
      ZeroIsWhole(f, bits);
      ZerosCompact(f, bits, wild);
    }
    if Finite(f, bits) {
      WholeIsInteger(f, bits);
      if Whole(f, bits) && !Zero(f, bits) { WholeComesBack(f, bits); }
    }
  }

  lemma ZeroIsWhole(f: Format, bits: nat)
    requires Zero(f, bits)
    ensures Whole(f, bits) && Truncated(f, bits) == 0
  {
    hide Field, Fraction, Multiple, Shifted, Pow2;
    ZeroFields(f);
    ZeroProduct(f);
    ZeroWhole(f, bits);
  }

  lemma ZeroProduct(f: Format)
    ensures Multiple(0, Bias(f) - 1)
  {
    hide Multiple, Pow2;
    ProductIsMultiple(0, Bias(f) - 1);
  }

  lemma NotNaN(f: Format, bits: nat)
    ensures Finite(f, bits) ==> !NaN(f, bits)
  {}

  lemma IntegerFormNotFloat(n: int)
    ensures !Numbers.SmallestInt(n).WFloat?
  {}
}
