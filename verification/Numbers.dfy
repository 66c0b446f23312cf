/** Integer formats: the smallest one for a number, and what each decodes to. */
module Numbers {
  import opened Bytes
  import opened Buffers
  import opened Codes
  import opened Wire
  import Floats

  /** The form EncodeUint chooses. */
  function SmallestUint(n: nat): Wire {
    if n <= 0x7f then WFix(n)
    else if n <= 0xff then WUint(1, n)
    else if n <= 0xffff then WUint(2, n)
    else if n <= 0xffff_ffff then WUint(4, n)
    else WUint(8, n)
  }

  /** The form EncodeInt chooses. */
  function SmallestInt(n: int): Wire {
    if n >= 0 then SmallestUint(n)
    else if n >= -32 then WFix(n)
    else if n >= -0x80 then WInt(1, n)
    else if n >= -0x8000 then WInt(2, n)
    else if n >= -0x8000_0000 then WInt(4, n)
    else WInt(8, n)
  }

  predicate IntegerForm(w: Wire) { w.WFix? || w.WUint? || w.WInt? }

  function Double(k: nat, bits: nat): nat { if k == 4 then Floats.Widen32(bits) else bits }

  /** What DecodeInt64 makes of a value; wild is the hardware's out-of-range conversion. */
  function Int64Of(w: Wire, wild: int): Option<int> {
    match w
    case WNil => Some(0)
    case WFix(n) => Some(n)
    case WInt(_, n) => Some(n)
    case WUint(k, n) => Some(if k == 8 && n >= TWO63 then n - TWO64 else n)
    case WFloat(k, bits) =>
      (match Floats.ToInt64(Double(k, bits), wild) case Refused => None case Converted(n) => Some(n))
    case _ => None
  }

  /** What DecodeUint64 makes of a value: negative numbers wrap around. */
  function Uint64Of(w: Wire, wild: int): Option<int> {
    match w
    case WNil => Some(0)
    case WFix(n) => Some(Unsigned(n, 8))
    case WInt(_, n) => Some(Unsigned(n, 8))
    case WUint(_, n) => Some(n)
    case WFloat(k, bits) =>
      (match Floats.ToUint64(Double(k, bits), wild) case Refused => None case Converted(n) => Some(n))
    case _ => None
  }

  /** Every int64 written by EncodeInt is read back, and no integer form that reads back as
      the same number is shorter. */
  lemma SmallestIntRoundTrip(n: int, w: Wire, wild: int)
    requires -TWO63 <= n < TWO63
    ensures Valid(SmallestInt(n)) && Int64Of(SmallestInt(n), wild) == Some(n)
    ensures Valid(w) && IntegerForm(w) && Int64Of(w, wild) == Some(n) ==>
      |Emit(SmallestInt(n))| <= |Emit(w)|
  {
    PowValues();
  }

  lemma SmallestIntValid(n: int)
    requires -TWO63 <= n < TWO63
    ensures Valid(SmallestInt(n))
  {
    SmallestIntRoundTrip(n, WNil, 0);
  }

  lemma SmallestUintRoundTrip(n: nat, wild: int)
    requires n < TWO64
    ensures Valid(SmallestUint(n)) && Uint64Of(SmallestUint(n), wild) == Some(n)
  {
    PowValues();
  }

  /** No integer form that DecodeUint64 reads as the same number is shorter than w. */
  ghost predicate Shortest(w: Wire, wild: int)
    requires Valid(w)
  {
    forall o: Wire :: Valid(o) && IntegerForm(o) && Uint64Of(o, wild) == Uint64Of(w, wild) ==>
      |Emit(w)| <= |Emit(o)|
  }

  /** EncodeUint is shortest exactly below 2^64 - 2^31. From there on the wrapped negative
      forms, which DecodeUint64 also accepts, take five bytes or fewer against its nine. */
  lemma SmallestUintShortest(n: nat, wild: int)
    requires n < TWO64
    ensures Valid(SmallestUint(n))
    ensures Shortest(SmallestUint(n), wild) <==> n < TWO64 - 0x8000_0000
  {
    PowValues();
    SmallestUintRoundTrip(n, wild);
    if n < TWO64 - 0x8000_0000 {
      forall o: Wire | Valid(o) && IntegerForm(o) && Uint64Of(o, wild) == Some(n)
        ensures |Emit(SmallestUint(n))| <= |Emit(o)|
      {
        NoShorterUint(n, o, wild);
      }
    } else {
      var o := WInt(4, n - TWO64);
      assert Valid(o) && IntegerForm(o) && Uint64Of(o, wild) == Some(n);
      assert |Emit(o)| < |Emit(SmallestUint(n))|;
    }
  }

  lemma NoShorterUint(n: nat, o: Wire, wild: int)
    requires n < TWO64 - 0x8000_0000
    requires Valid(o) && IntegerForm(o) && Uint64Of(o, wild) == Some(n)
    ensures Valid(SmallestUint(n)) && |Emit(SmallestUint(n))| <= |Emit(o)|
  {
    hide Emit, Unsigned, Pow256;
    PowValues();
    SmallestUintRoundTrip(n, wild);
    FormSizeIsSize(o);
    FormSizeIsSize(SmallestUint(n));
    if !o.WUint? { WrapEight(o.n); }
  }

  function FormSize(w: Wire): nat
    requires IntegerForm(w)
  {
    if w.WFix? then 1 else 1 + w.width
  }

  lemma FormSizeIsSize(w: Wire)
    requires Valid(w) && IntegerForm(w)
    ensures |Emit(w)| == FormSize(w)
  {
    hide Pow256, Be, Unsigned, WidthCode;
  }

  lemma WrapEight(n: int)
    requires -TWO63 <= n < TWO64
    ensures Unsigned(n, 8) == if n < 0 then n + TWO64 else n
  {
    PowValues();
  }

  lemma SignedEight(n: nat)
    ensures Signed(n, 8) == if n >= TWO63 then n - TWO64 else n
  {
    PowValues();
  }

  /** The signed and the unsigned decoder agree modulo 2^64 on every integer-coded value, and
      each stays in its own range. */
  lemma DecodersAgree(w: Wire, wild: int)
    requires Valid(w) && IntegerForm(w)
    ensures Int64Of(w, wild).Some? && Uint64Of(w, wild).Some?
    ensures -TWO63 <= Int64Of(w, wild).value < TWO63
    ensures Uint64Of(w, wild).value == Int64Of(w, wild).value % TWO64
  {
    PowValues();
  }

  // ---- numbers from bytes ----

  function Then(r: Option<int>, end: nat): Outcome<int> {
    match r case None => Err case Some(n) => Ok(n, end)
  }

  function IntAt(input: bytes, pos: nat, wild: int): Outcome<int> {
    match Parse(input, pos)
    case Err => Err
    case Ok(w, e) => Then(Int64Of(w, wild), e)
  }

  function UintAt(input: bytes, pos: nat, wild: int): Outcome<int> {
    match Parse(input, pos)
    case Err => Err
    case Ok(w, e) => Then(Uint64Of(w, wild), e)
  }

  lemma NothingThere(input: bytes, pos: nat)
    ensures pos >= |input| ==> Parse(input, pos) == Err
  {}

  predicate IsNumber(c: byte) {
    c == UINT8 || c == UINT16 || c == UINT32 || c == UINT64 ||
    c == INT8 || c == INT16 || c == INT32 || c == INT64 || c == FLOAT || c == DOUBLE
  }

  /** The wire form a number code with argument a stands for. */
  function NumberForm(c: byte, a: nat): Wire {
    if c == FLOAT || c == DOUBLE then WFloat(ArgWidth(c), a)
    else if c == INT8 || c == INT16 || c == INT32 || c == INT64 then WInt(ArgWidth(c), Signed(a, ArgWidth(c)))
    else WUint(ArgWidth(c), a)
  }

  lemma ParseByCode(input: bytes, pos: nat, c: byte)
    requires pos < |input| && c == input[pos]
    ensures IsNumber(c) ==>
      Parse(input, pos)
      == (match Arg(input, pos + 1, c) case Err => Err case Ok(a, p) => Ok(NumberForm(c, a), p))
    ensures c == NIL ==> Parse(input, pos) == Ok(WNil, pos + 1)
    ensures c == FALSE || c == TRUE ==> Parse(input, pos) == Ok(WBool(c == TRUE), pos + 1)
    ensures KindOf(c) == UnusedCode ==> Parse(input, pos) == Err
    ensures IsFixedNum(c) ==> Parse(input, pos) == Ok(WFix(Signed(c, 1)), pos + 1)
    ensures !IsNumber(c) && c != NIL && !IsFixedNum(c) && Parse(input, pos).Ok? ==>
      var w := Parse(input, pos).val; !IntegerForm(w) && !w.WNil? && !w.WFloat?
  {
    hide KindOf, Signed, ParseSeq, FromBe;
    KindTable(c);
  }

  lemma FloatOnlyByCode(input: bytes, pos: nat, c: byte)
    requires pos < |input| && c == input[pos]
    ensures c != FLOAT && Parse(input, pos).Ok? && Parse(input, pos).val.WFloat? ==>
      Parse(input, pos).val.width == 8
  {
    hide Parse, Arg, KindOf, Signed;
    ParseByCode(input, pos, c);
  }

  /** How DecodeInt64 reads a value, code by code. */
  lemma IntByCode(input: bytes, pos: nat, c: byte, wild: int)
    requires pos < |input| && c == input[pos]
    ensures c == NIL ==> IntAt(input, pos, wild) == Ok(0, pos + 1)
    ensures IsFixedNum(c) ==> IntAt(input, pos, wild) == Ok(Signed(c, 1), pos + 1)
    ensures IsNumber(c) ==>
      IntAt(input, pos, wild)
      == (match Arg(input, pos + 1, c)
          case Err => Err
          case Ok(a, p) => Then(Int64Of(NumberForm(c, a), wild), p))
    ensures c != NIL && !IsFixedNum(c) && !IsNumber(c) ==> IntAt(input, pos, wild) == Err
  {
    hide Parse, Arg, NumberForm, Signed;
    ParseByCode(input, pos, c);
  }

  lemma UintByCode(input: bytes, pos: nat, c: byte, wild: int)
    requires pos < |input| && c == input[pos]
    ensures c == NIL ==> UintAt(input, pos, wild) == Ok(0, pos + 1)
    ensures IsFixedNum(c) ==> UintAt(input, pos, wild) == Ok(Unsigned(Signed(c, 1), 8), pos + 1)
    ensures IsNumber(c) ==>
      UintAt(input, pos, wild)
      == (match Arg(input, pos + 1, c)
          case Err => Err
          case Ok(a, p) => Then(Uint64Of(NumberForm(c, a), wild), p))
    ensures c != NIL && !IsFixedNum(c) && !IsNumber(c) ==> UintAt(input, pos, wild) == Err
  {
    hide Parse, Arg, NumberForm, Signed, Unsigned;
    ParseByCode(input, pos, c);
  }

  // ---- bools ----

  function BoolAt(input: bytes, pos: nat): Outcome<bool> {
    match Parse(input, pos)
    case Ok(WNil, e) => Ok(false, e)
    case Ok(WBool(b), e) => Ok(b, e)
    case _ => Err
  }

  lemma BoolByCode(input: bytes, pos: nat)
    ensures BoolAt(input, pos)
         == if pos >= |input| then Err
            else if input[pos] == NIL || input[pos] == FALSE then Ok(false, pos + 1)
            else if input[pos] == TRUE then Ok(true, pos + 1)
            else Err
  {
    hide KindOf, Signed, ParseSeq, FromBe;
    if pos < |input| { KindTable(input[pos]); }
  }
}
