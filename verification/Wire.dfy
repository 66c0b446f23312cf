/**
 The MessagePack grammar as a relation between bytes and wire trees: a parser that has
 no limits and no guards, and the emitter that always picks the shortest header.
 */
module Wire {
  import opened Bytes
  import opened Codes

  /** One value as it stands on the wire. Map entries are keys and values, alternately. */
  datatype Wire =
    | WNil
    | WBool(b: bool)
    | WFix(n: int)
    | WUint(width: nat, n: int)
    | WInt(width: nat, n: int)
    | WFloat(width: nat, bits: nat)
    | WStr(s: bytes)
    | WBin(s: bytes)
    | WArr(items: seq<Wire>)
    | WMap(entries: seq<Wire>)
    | WExt(fixed: bool, id: int, data: bytes)

  datatype Outcome<+T> = Err | Ok(val: T, end: nat)

  /** The number announced by code c, whose argument (if any) starts at p. */
  function Arg(input: bytes, p: nat, c: byte): (r: Outcome<nat>)
    ensures r.Ok? ==> r.end == p + ArgWidth(c) && (p <= |input| ==> r.end <= |input|)
  {
    var w := ArgWidth(c);
    if w == 0 then Ok(FixArg(c), p)
    else if p + w <= |input| then Ok(FromBe(input[p..p + w]), p + w)
    else Err
  }

  /** A number of k bytes at p. */
  function NumberAt(input: bytes, p: nat, k: nat): Outcome<nat> {
    if p + k <= |input| then Ok(FromBe(input[p..p + k]), p + k) else Err
  }

  /** The argument of a container code, code by code. */
  lemma LengthArg(input: bytes, p: nat, c: byte)
    ensures IsFixedArray(c) || IsFixedMap(c) ==> Arg(input, p, c) == Ok(FixArg(c), p) && FixArg(c) < MAX_LEN
    ensures c == ARRAY16 || c == MAP16 ==> Arg(input, p, c) == NumberAt(input, p, 2)
    ensures c == ARRAY32 || c == MAP32 ==> Arg(input, p, c) == NumberAt(input, p, 4)
    ensures IsArray(c) || IsMap(c) ==> Arg(input, p, c).Ok? ==> Arg(input, p, c).val < MAX_LEN
  {
    hide FromBe;
    ArgBound(input, p, c);
  }

  /** The value announced by code c with argument a, when it nests nothing; p follows a. */
  function Scalar(input: bytes, c: byte, a: nat, p: nat): (r: Outcome<Wire>)
    ensures r.Ok? ==> p <= r.end && (p <= |input| ==> r.end <= |input|)
  {
    match KindOf(c)
    case Fixnum => Ok(WFix(Signed(c, 1)), p)
    case NilCode => Ok(WNil, p)
    case BoolCode => Ok(WBool(c == TRUE), p)
    case FloatCode => Ok(WFloat(ArgWidth(c), a), p)
    case UintCode => Ok(WUint(ArgWidth(c), a), p)
    case IntCode => Ok(WInt(ArgWidth(c), Signed(a, ArgWidth(c))), p)
    case StrCode => if p + a <= |input| then Ok(WStr(input[p..p + a]), p + a) else Err
    case BinCode => if p + a <= |input| then Ok(WBin(input[p..p + a]), p + a) else Err
    case ExtCode =>
      if p + 1 + a <= |input|
      then Ok(WExt(IsFixedExt(c), Signed(input[p], 1), input[p + 1..p + 1 + a]), p + 1 + a)
      else Err
    case _ => Err
  }

  function Parse(input: bytes, pos: nat): (r: Outcome<Wire>)
    ensures r.Ok? ==> pos < r.end <= |input|
    decreases |input| - pos, 0
  {
    if pos >= |input| then Err else
    match Arg(input, pos + 1, input[pos])
    case Err => Err
    case Ok(a, p) =>
      match KindOf(input[pos])
      case ArrCode => (match ParseSeq(input, p, a) case Err => Err case Ok(ws, e) => Ok(WArr(ws), e))
      case MapCode => (match ParseSeq(input, p, 2 * a) case Err => Err case Ok(ws, e) => Ok(WMap(ws), e))
      case _ => Scalar(input, input[pos], a, p)
  }

  /** n values in a row. Each takes at least one byte. */
  function ParseSeq(input: bytes, pos: nat, n: nat): (r: Outcome<seq<Wire>>)
    ensures r.Ok? ==> |r.val| == n && pos + n <= r.end && (pos <= |input| ==> r.end <= |input|)
    decreases |input| - pos, n + 1
  {
    if n == 0 then Ok([], pos) else
    match Parse(input, pos)
    case Err => Err
    case Ok(w, p) =>
      match ParseSeq(input, p, n - 1)
      case Err => Err
      case Ok(ws, e) => Ok([w] + ws, e)
  }

  lemma ParseSeqStep(input: bytes, pos: nat, n: nat)
    requires n > 0
    ensures ParseSeq(input, pos, n)
         == (match Parse(input, pos)
             case Err => Err
             case Ok(w, p) =>
               match ParseSeq(input, p, n - 1)
               case Err => Err
               case Ok(ws, e) => Ok([w] + ws, e))
  {
    hide Parse;
  }

  // ---- the emitter ----

  function StrHead(n: nat): bytes {
    if n < 32 then [0xa0 + n]
    else if n < 256 then [STR8] + Be(n, 1)
    else if n < 0x1_0000 then [STR16] + Be(n, 2)
    else [STR32] + Be(n, 4)
  }

  function BinHead(n: nat): bytes {
    if n < 256 then [BIN8] + Be(n, 1)
    else if n < 0x1_0000 then [BIN16] + Be(n, 2)
    else [BIN32] + Be(n, 4)
  }

  function ArrHead(n: nat): bytes {
    if n < 16 then [0x90 + n]
    else if n < 0x1_0000 then [ARRAY16] + Be(n, 2)
    else [ARRAY32] + Be(n, 4)
  }

  function MapHead(n: nat): bytes {
    if n < 16 then [0x80 + n]
    else if n < 0x1_0000 then [MAP16] + Be(n, 2)
    else [MAP32] + Be(n, 4)
  }

  predicate FixExtLen(n: nat) { n == 1 || n == 2 || n == 4 || n == 8 || n == 16 }

  function ExtHead(fixed: bool, n: nat): bytes
    requires fixed ==> FixExtLen(n)
  {
    if fixed then
      [if n == 1 then FIXEXT1 else if n == 2 then FIXEXT2 else if n == 4 then FIXEXT4
       else if n == 8 then FIXEXT8 else FIXEXT16]
    else if n < 256 then [EXT8] + Be(n, 1)
    else if n < 0x1_0000 then [EXT16] + Be(n, 2)
    else [EXT32] + Be(n, 4)
  }

  /** The code of a k-byte number, given the code of the one-byte form. */
  function WidthCode(base: byte, k: nat): byte
    requires NumWidth(k) && base <= INT8
  {
    base + (if k == 1 then 0 else if k == 2 then 1 else if k == 4 then 2 else 3)
  }

  const MAX_LEN: nat := 0x1_0000_0000

  /** The trees that have a wire form: numbers in range, lengths of at most four bytes. */
  predicate Valid(w: Wire)
    decreases w, 0
  {
    match w
    case WNil => true
    case WBool(_) => true
    case WFix(n) => -32 <= n < 128
    case WUint(k, n) => NumWidth(k) && 0 <= n < Pow256(k)
    case WInt(k, n) => NumWidth(k) && InSigned(n, k)
    case WFloat(k, bits) => (k == 4 || k == 8) && bits < Pow256(k)
    case WStr(s) => |s| < MAX_LEN
    case WBin(s) => |s| < MAX_LEN
    case WArr(ws) => |ws| < MAX_LEN && ValidAll(ws)
    case WMap(ws) => |ws| % 2 == 0 && |ws| / 2 < MAX_LEN && ValidAll(ws)
    case WExt(fixed, id, data) =>
      -128 <= id < 128 && |data| < MAX_LEN && (fixed ==> FixExtLen(|data|))
  }

  predicate ValidAll(ws: seq<Wire>)
    decreases ws, 1
  {
    ws == [] || (Valid(ws[0]) && ValidAll(ws[1..]))
  }

  function Emit(w: Wire): (s: bytes)
    requires Valid(w)
    decreases w, 0
  {
    match w
    case WNil => [NIL]
    case WBool(b) => [if b then TRUE else FALSE]
    case WFix(n) => [n % 256]
    case WUint(k, n) => [WidthCode(UINT8, k)] + Be(n, k)
    case WInt(k, n) => [WidthCode(INT8, k)] + Be(Unsigned(n, k), k)
    case WFloat(k, bits) => [if k == 4 then FLOAT else DOUBLE] + Be(bits, k)
    case WStr(s) => StrHead(|s|) + s
    case WBin(s) => BinHead(|s|) + s
    case WArr(ws) => ArrHead(|ws|) + EmitAll(ws)
    case WMap(ws) => MapHead(|ws| / 2) + EmitAll(ws)
    case WExt(fixed, id, data) => ExtHead(fixed, |data|) + [id % 256] + data
  }

  function EmitAll(ws: seq<Wire>): bytes
    requires ValidAll(ws)
    decreases ws, 1
  {
    if ws == [] then [] else Emit(ws[0]) + EmitAll(ws[1..])
  }

  // ---- the parser inverts the emitter, wherever the bytes stand ----

  /** A header of code c and a k-byte argument n is read back as n. */
  lemma ReadHead(input: bytes, pos: nat, c: byte, n: nat, k: nat)
    requires k == ArgWidth(c) && k > 0 && n < Pow256(k)
    requires At(input, pos, [c] + Be(n, k))
    ensures input[pos] == c
    ensures Arg(input, pos + 1, c) == Ok(n, pos + 1 + k)
  {
    AtConcat(input, pos, [c], Be(n, k));
    assert input[pos] == input[pos..pos + 1][0];
    FromBeOfBe(n, k);
  }

  lemma ReadFix(input: bytes, pos: nat, c: byte)
    requires ArgWidth(c) == 0 && At(input, pos, [c])
    ensures input[pos] == c
    ensures Arg(input, pos + 1, c) == Ok(FixArg(c), pos + 1)
  {
    assert input[pos] == input[pos..pos + 1][0];
  }

  /** Header h announces n things of the given kind. */
  ghost predicate Announces(input: bytes, pos: nat, h: bytes, kind: Kind, n: nat) {
    && pos < |input|
    && KindOf(input[pos]) == kind
    && Arg(input, pos + 1, input[pos]) == Ok(n, pos + |h|)
  }

  lemma ReadStrHead(input: bytes, pos: nat, n: nat)
    requires n < MAX_LEN && At(input, pos, StrHead(n))
    ensures Announces(input, pos, StrHead(n), StrCode, n)
  {
    PowValues();
    if n < 32 { ReadFix(input, pos, 0xa0 + n); }
    else if n < 256 { ReadHead(input, pos, STR8, n, 1); }
    else if n < 0x1_0000 { ReadHead(input, pos, STR16, n, 2); }
    else { ReadHead(input, pos, STR32, n, 4); }
  }

  lemma ReadBinHead(input: bytes, pos: nat, n: nat)
    requires n < MAX_LEN && At(input, pos, BinHead(n))
    ensures Announces(input, pos, BinHead(n), BinCode, n)
  {
    PowValues();
    if n < 256 { ReadHead(input, pos, BIN8, n, 1); }
    else if n < 0x1_0000 { ReadHead(input, pos, BIN16, n, 2); }
    else { ReadHead(input, pos, BIN32, n, 4); }
  }

  lemma ReadArrHead(input: bytes, pos: nat, n: nat)
    requires n < MAX_LEN && At(input, pos, ArrHead(n))
    ensures Announces(input, pos, ArrHead(n), ArrCode, n)
  {
    PowValues();
    if n < 16 { ReadFix(input, pos, 0x90 + n); }
    else if n < 0x1_0000 { ReadHead(input, pos, ARRAY16, n, 2); }
    else { ReadHead(input, pos, ARRAY32, n, 4); }
  }

  lemma ReadMapHead(input: bytes, pos: nat, n: nat)
    requires n < MAX_LEN && At(input, pos, MapHead(n))
    ensures Announces(input, pos, MapHead(n), MapCode, n)
  {
    PowValues();
    if n < 16 { ReadFix(input, pos, 0x80 + n); }
    else if n < 0x1_0000 { ReadHead(input, pos, MAP16, n, 2); }
    else { ReadHead(input, pos, MAP32, n, 4); }
  }

  lemma ReadExtHead(input: bytes, pos: nat, fixed: bool, n: nat)
    requires n < MAX_LEN && (fixed ==> FixExtLen(n))
    requires At(input, pos, ExtHead(fixed, n))
    ensures Announces(input, pos, ExtHead(fixed, n), ExtCode, n)
    ensures IsFixedExt(input[pos]) == fixed
  {
    PowValues();
    var h := ExtHead(fixed, n);
    if fixed { ReadFix(input, pos, h[0]); }
    else if n < 256 { ReadHead(input, pos, EXT8, n, 1); }
    else if n < 0x1_0000 { ReadHead(input, pos, EXT16, n, 2); }
    else { ReadHead(input, pos, EXT32, n, 4); }
  }

  lemma WidthCodes(k: nat)
    requires NumWidth(k)
    ensures KindOf(WidthCode(UINT8, k)) == UintCode && ArgWidth(WidthCode(UINT8, k)) == k
    ensures KindOf(WidthCode(INT8, k)) == IntCode && ArgWidth(WidthCode(INT8, k)) == k
  {}

  lemma ParseFix(input: bytes, pos: nat, n: int)
    requires -32 <= n < 128 && At(input, pos, [n % 256])
    ensures Parse(input, pos) == Ok(WFix(n), pos + 1)
  {
    ReadFix(input, pos, n % 256);
    PowValues();
    SignedOfUnsigned(n, 1);
    assert KindOf(n % 256) == Fixnum;
  }

  lemma ParseUint(input: bytes, pos: nat, k: nat, n: nat)
    requires NumWidth(k) && n < Pow256(k) && At(input, pos, [WidthCode(UINT8, k)] + Be(n, k))
    ensures Parse(input, pos) == Ok(WUint(k, n), pos + 1 + k)
  {
    WidthCodes(k);
    ReadHead(input, pos, WidthCode(UINT8, k), n, k);
  }

  lemma ParseInt(input: bytes, pos: nat, k: nat, n: int)
    requires NumWidth(k) && InSigned(n, k)
    requires At(input, pos, [WidthCode(INT8, k)] + Be(Unsigned(n, k), k))
    ensures Parse(input, pos) == Ok(WInt(k, n), pos + 1 + k)
  {
    WidthCodes(k);
    SignedOfUnsigned(n, k);
    ReadHead(input, pos, WidthCode(INT8, k), Unsigned(n, k), k);
  }

  lemma ParseFloat(input: bytes, pos: nat, k: nat, bits: nat)
    requires (k == 4 || k == 8) && bits < Pow256(k)
    requires At(input, pos, [if k == 4 then FLOAT else DOUBLE] + Be(bits, k))
    ensures Parse(input, pos) == Ok(WFloat(k, bits), pos + 1 + k)
  {
    ReadHead(input, pos, if k == 4 then FLOAT else DOUBLE, bits, k);
  }

  lemma ParseStr(input: bytes, pos: nat, s: bytes)
    requires |s| < MAX_LEN && At(input, pos, StrHead(|s|) + s)
    ensures Parse(input, pos) == Ok(WStr(s), pos + |StrHead(|s|)| + |s|)
  {
    hide StrHead, Arg, KindOf;
    AtConcat(input, pos, StrHead(|s|), s);
    ReadStrHead(input, pos, |s|);
  }

  lemma ParseBin(input: bytes, pos: nat, s: bytes)
    requires |s| < MAX_LEN && At(input, pos, BinHead(|s|) + s)
    ensures Parse(input, pos) == Ok(WBin(s), pos + |BinHead(|s|)| + |s|)
  {
    hide BinHead, Arg, KindOf;
    AtConcat(input, pos, BinHead(|s|), s);
    ReadBinHead(input, pos, |s|);
  }

  lemma SignedByte(id: int)
    requires -128 <= id < 128
    ensures Signed(id % 256, 1) == id
  {
    PowValues();
  }

  lemma ParseExt(input: bytes, pos: nat, fixed: bool, id: int, data: bytes)
    requires Valid(WExt(fixed, id, data))
    requires At(input, pos, ExtHead(fixed, |data|) + [id % 256] + data)
    ensures Parse(input, pos)
         == Ok(WExt(fixed, id, data), pos + |ExtHead(fixed, |data|)| + 1 + |data|)
  {
    hide ExtHead, Arg, KindOf, Signed, IsFixedExt;
    var h := ExtHead(fixed, |data|);
    AtConcat(input, pos, h + [id % 256], data);
    AtConcat(input, pos, h, [id % 256]);
    ReadExtHead(input, pos, fixed, |data|);
    assert input[pos + |h|] == input[pos + |h|..pos + |h| + 1][0];
    SignedByte(id);
  }

  /** Emitted bytes standing anywhere in any input parse to the tree they came from, and
      the parse stops exactly where they stop. */
  lemma {:induction false} ParseEmit(input: bytes, pos: nat, w: Wire)
    requires Valid(w) && At(input, pos, Emit(w))
    ensures Parse(input, pos) == Ok(w, pos + |Emit(w)|)
    decreases w, 0
  {
    hide StrHead, BinHead, ExtHead, Be, Signed, Unsigned, WidthCode;
    match w
    case WNil => ReadFix(input, pos, NIL);
    case WBool(b) => ReadFix(input, pos, if b then TRUE else FALSE);
    case WFix(n) => ParseFix(input, pos, n);
    case WUint(k, n) => ParseUint(input, pos, k, n);
    case WInt(k, n) => ParseInt(input, pos, k, n);
    case WFloat(k, bits) => ParseFloat(input, pos, k, bits);
    case WStr(s) => ParseStr(input, pos, s);
    case WBin(s) => ParseBin(input, pos, s);
    case WExt(fixed, id, data) => ParseExt(input, pos, fixed, id, data);
    case WArr(ws) => ParseArr(input, pos, ws);
    case WMap(ws) => ParseMap(input, pos, |ws| / 2, ws);
  }

  lemma {:induction false} ParseArr(input: bytes, pos: nat, ws: seq<Wire>)
    requires Valid(WArr(ws)) && At(input, pos, ArrHead(|ws|) + EmitAll(ws))
    ensures Parse(input, pos) == Ok(WArr(ws), pos + |ArrHead(|ws|)| + |EmitAll(ws)|)
    decreases ws, 2
  {
    hide ArrHead, Arg, KindOf, EmitAll, ParseSeq, Scalar, At;
    var p := pos + |ArrHead(|ws|)|;
    AtConcat(input, pos, ArrHead(|ws|), EmitAll(ws));
    ReadArrHead(input, pos, |ws|);
    ParseEmitAll(input, p, ws);
  }

  lemma {:induction false} ParseMap(input: bytes, pos: nat, n: nat, ws: seq<Wire>)
    requires 2 * n == |ws| && Valid(WMap(ws)) && At(input, pos, MapHead(n) + EmitAll(ws))
    ensures Parse(input, pos) == Ok(WMap(ws), pos + |MapHead(n)| + |EmitAll(ws)|)
    decreases ws, 2
  {
    hide MapHead, Arg, KindOf, EmitAll, ParseSeq, Scalar, At;
    var p := pos + |MapHead(n)|;
    AtConcat(input, pos, MapHead(n), EmitAll(ws));
    ReadMapHead(input, pos, n);
    ParseEmitAll(input, p, ws);
  }

  lemma {:induction false} ParseEmitAll(input: bytes, pos: nat, ws: seq<Wire>)
    requires ValidAll(ws) && At(input, pos, EmitAll(ws))
    ensures ParseSeq(input, pos, |ws|) == Ok(ws, pos + |EmitAll(ws)|)
    decreases ws, 1
  {
    hide Emit, Valid, Parse;
    if ws == [] {
    } else {
      AtConcat(input, pos, Emit(ws[0]), EmitAll(ws[1..]));
      ParseEmit(input, pos, ws[0]);
      ParseEmitAll(input, pos + |Emit(ws[0])|, ws[1..]);
      assert ws == [ws[0]] + ws[1..];
    }
  }

  // ---- every parsed tree has a wire form ----

  lemma ArgBound(input: bytes, p: nat, c: byte)
    ensures Arg(input, p, c).Ok? && ArgWidth(c) > 0 ==> Arg(input, p, c).val < Pow256(ArgWidth(c))
    ensures Arg(input, p, c).Ok? && ArgWidth(c) <= 4 ==> Arg(input, p, c).val < MAX_LEN
  {
    PowValues();
    if p + ArgWidth(c) <= |input| { FromBeBound(input[p..p + ArgWidth(c)]); }
  }

  lemma CodeWidths(c: byte)
    ensures KindOf(c).UintCode? || KindOf(c).IntCode? ==> NumWidth(ArgWidth(c))
    ensures KindOf(c).FloatCode? ==> ArgWidth(c) == 4 || ArgWidth(c) == 8
    ensures KindOf(c) in {StrCode, BinCode, ExtCode, ArrCode, MapCode} ==> ArgWidth(c) <= 4
    ensures IsFixedExt(c) ==> ArgWidth(c) == 0 && FixExtLen(FixArg(c))
  {}

  lemma ScalarValid(input: bytes, q: nat, c: byte, a: nat, p: nat)
    requires Arg(input, q, c) == Ok(a, p)
    ensures Scalar(input, c, a, p).Ok? ==> Valid(Scalar(input, c, a, p).val)
  {
    ArgBound(input, q, c);
    CodeWidths(c);
    match KindOf(c)
    case Fixnum => PowValues();
    case IntCode => hide KindOf; UnsignedOfSigned(a, ArgWidth(c));
    case ExtCode =>
      hide KindOf;
      if p < |input| { PowValues(); UnsignedOfSigned(input[p], 1); }
    case _ => hide KindOf;
  }

  /** Whatever bytes were accepted, the tree can be emitted again. */
  lemma {:induction false} ParseValid(input: bytes, pos: nat)
    ensures Parse(input, pos).Ok? ==> Valid(Parse(input, pos).val)
    decreases |input| - pos, 0
  {
    hide Scalar;
    if Parse(input, pos).Ok? {
      var c := input[pos];
      ArgBound(input, pos + 1, c);
      var Ok(a, p) := Arg(input, pos + 1, c);
      if KindOf(c) == ArrCode { ParseSeqValid(input, p, a); }
      else if KindOf(c) == MapCode { ParseSeqValid(input, p, 2 * a); }
      else { ScalarValid(input, pos + 1, c, a, p); }
    }
  }

  lemma {:induction false} ParseSeqValid(input: bytes, pos: nat, n: nat)
    ensures ParseSeq(input, pos, n).Ok? ==> ValidAll(ParseSeq(input, pos, n).val)
    decreases |input| - pos, n + 1
  {
    if n > 0 && ParseSeq(input, pos, n).Ok? {
      ParseValid(input, pos);
      ParseSeqValid(input, Parse(input, pos).end, n - 1);
    }
  }

  // ---- extension and prefixes ----

  lemma SliceExtends(input: bytes, more: bytes, i: nat, j: nat)
    requires input <= more && i <= j <= |input|
    ensures more[i..j] == input[i..j]
  {
    assert more[..|input|] == input;
  }

  lemma ArgExtends(input: bytes, more: bytes, p: nat, c: byte)
    requires input <= more && Arg(input, p, c).Ok?
    ensures Arg(more, p, c) == Arg(input, p, c)
  {
    hide ArgWidth, FixArg;
    if ArgWidth(c) > 0 { SliceExtends(input, more, p, p + ArgWidth(c)); }
  }

  lemma ScalarExtends(input: bytes, more: bytes, c: byte, a: nat, p: nat)
    requires input <= more && Scalar(input, c, a, p).Ok?
    ensures Scalar(more, c, a, p) == Scalar(input, c, a, p)
  {
    hide KindOf, ArgWidth, IsFixedExt, Signed;
    match KindOf(c)
    case StrCode => SliceExtends(input, more, p, p + a);
    case BinCode => SliceExtends(input, more, p, p + a);
    case ExtCode =>
      SliceExtends(input, more, p + 1, p + 1 + a);
    case _ =>
  }

  /** A parse that succeeds still succeeds, with the same tree and end, on any longer input. */
  lemma {:induction false} ParseExtends(input: bytes, more: bytes, pos: nat)
    requires input <= more && Parse(input, pos).Ok?
    ensures Parse(more, pos) == Parse(input, pos)
    decreases |input| - pos, 0
  {
    hide Arg, KindOf, Scalar, ParseSeq;
    var c := input[pos];
    assert more[pos] == c;
    var Ok(a, p) := Arg(input, pos + 1, c);
    ArgExtends(input, more, pos + 1, c);
    match KindOf(c)
    case ArrCode => ParseSeqExtends(input, more, p, a);
    case MapCode => ParseSeqExtends(input, more, p, 2 * a);
    case _ => ScalarExtends(input, more, c, a, p);
  }

  lemma {:induction false} ParseSeqExtends(input: bytes, more: bytes, pos: nat, n: nat)
    requires input <= more && ParseSeq(input, pos, n).Ok?
    ensures ParseSeq(more, pos, n) == ParseSeq(input, pos, n)
    decreases |input| - pos, n + 1
  {
    hide Parse;
    if n == 0 {
    } else {
      ParseExtends(input, more, pos);
      ParseSeqExtends(input, more, Parse(input, pos).end, n - 1);
    }
  }

  /** No proper prefix of an emitted tree parses: the format is prefix-free. */
  lemma PrefixRejected(w: Wire, k: nat)
    requires Valid(w) && k < |Emit(w)|
    ensures Parse(Emit(w)[..k], 0).Err?
  {
    var s := Emit(w);
    ParseEmit(s, 0, w);
    if Parse(s[..k], 0).Ok? {
      ParseExtends(s[..k], s, 0);
    }
  }

  /** Distinct trees have distinct bytes, even when more bytes follow. */
  lemma EmitInjective(w1: Wire, w2: Wire, t1: bytes, t2: bytes)
    requires Valid(w1) && Valid(w2)
    requires Emit(w1) + t1 == Emit(w2) + t2
    ensures w1 == w2 && t1 == t2
  {
    var s := Emit(w1) + t1;
    ParseEmit(s, 0, w1);
    assert s[..|Emit(w2)|] == Emit(w2);
    ParseEmit(s, 0, w2);
    assert t1 == s[|Emit(w1)|..] && t2 == s[|Emit(w2)|..];
  }

  // ---- nesting height and container length ----

  function Max(a: nat, b: nat): nat { if a >= b then a else b }

  /** Nesting height; a scalar has height one. */
  function Height(w: Wire): nat
    decreases w, 0
  {
    match w
    case WArr(ws) => 1 + HeightAll(ws)
    case WMap(ws) => 1 + HeightAll(ws)
    case _ => 1
  }

  function HeightAll(ws: seq<Wire>): nat
    decreases ws, 1
  {
    if ws == [] then 0 else Max(Height(ws[0]), HeightAll(ws[1..]))
  }

  /** The largest element count any container of the tree announces. */
  function Width(w: Wire): nat
    decreases w, 0
  {
    match w
    case WArr(ws) => Max(|ws|, WidthAll(ws))
    case WMap(ws) => Max(|ws| / 2, WidthAll(ws))
    case _ => 0
  }

  function WidthAll(ws: seq<Wire>): nat
    decreases ws, 1
  {
    if ws == [] then 0 else Max(Width(ws[0]), WidthAll(ws[1..]))
  }

  /** A tree a reader accepts with room nested levels left and containers of at most cap. */
  predicate Fits(w: Wire, room: int, cap: nat) {
    Height(w) <= room && Width(w) <= cap
  }

  predicate FitsAll(ws: seq<Wire>, room: int, cap: nat) {
    HeightAll(ws) <= room && WidthAll(ws) <= cap
  }

  lemma {:induction false} ValidWidth(w: Wire)
    requires Valid(w)
    ensures Width(w) < MAX_LEN
    decreases w, 0
  {
    match w
    case WArr(ws) => ValidWidthAll(ws);
    case WMap(ws) => ValidWidthAll(ws);
    case _ =>
  }

  lemma {:induction false} ValidWidthAll(ws: seq<Wire>)
    requires ValidAll(ws)
    ensures WidthAll(ws) < MAX_LEN
    decreases ws, 1
  {
    if ws == [] {
    } else {
      ValidWidth(ws[0]);
      ValidWidthAll(ws[1..]);
    }
  }
}
