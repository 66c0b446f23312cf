/**
 Decoded values, and what the interface decoder makes of a wire tree: key decoding with the
 intern dictionary threaded through, built-in and registered extensions, and the loose mode.
 */
module Value {
  import opened Bytes
  import opened Buffers
  import opened Codes
  import opened Wire
  import opened Bounds
  import Floats
  import Numbers
  import Time

  /** What decoding into an empty interface yields. Widths are in bytes; strings are bytes. */
  datatype Value =
    | VNil
    | VBool(b: bool)
    | VInt(width: nat, n: int)
    | VUint(width: nat, n: int)
    | VFloat(width: nat, bits: nat)
    | VStr(s: bytes)
    | VBin(s: bytes)
    | VArr(items: seq<Value>)
    | VMap(m: map<bytes, Value>)
    | VTime(t: Time.Instant)
    | VExt(id: int, data: bytes)

  type Dict = seq<bytes>

  /** The decoder flags a value depends on, and which payloads registered ext decoders take. */
  datatype Mode = Mode(loose: bool, intern: bool, registered: (int, bytes) -> bool)

  datatype Got<+T> = Bad | Got(val: T, dict: Dict)

  const MIN_INTERNED_LEN := 3
  const MAX_DICT_LEN := 0xffff
  const INTERNED_ID := -128

  predicate InternLen(n: nat) { n == 1 || n == 2 || n == 4 }

  /** A string that was read in full enters the dictionary only in intern mode, when long
      enough, and while there is room. */
  function Remember(intern: bool, dict: Dict, s: bytes): Dict {
    if intern && |s| >= MIN_INTERNED_LEN && |dict| < MAX_DICT_LEN then dict + [s] else dict
  }

  function Lookup(dict: Dict, data: bytes): Got<bytes> {
    if InternLen(|data|) && FromBe(data) < |dict| then Got(dict[FromBe(data)], dict) else Bad
  }

  /** A string or map key. Index references are honoured only in fixed ext form. */
  function StringOf(intern: bool, w: Wire, dict: Dict): Got<bytes> {
    var interned := intern || |dict| > 0;
    match w
    case WNil => Got([], dict)
    case WStr(s) => Got(s, Remember(intern, dict, s))
    case WBin(s) => Got(s, Remember(intern, dict, s))
    case WExt(fixed, id, data) =>
      if interned && fixed && id == INTERNED_ID then Lookup(dict, data) else Bad
    case _ => Bad
  }

  function ExtOf(mode: Mode, id: int, data: bytes, dict: Dict): Got<Value> {
    if id == INTERNED_ID then
      (match Lookup(dict, data) case Bad => Bad case Got(s, d) => Got(VStr(s), d))
    else if id == Time.TIME_ID then
      (match Time.Unpack(data) case Bad => Bad case Good(t) => Got(VTime(t), dict))
    else if mode.registered(id, data) then Got(VExt(id, data), dict)
    else Bad
  }

  function ScalarOf(mode: Mode, w: Wire, dict: Dict): Got<Value> {
    match w
    case WNil => Got(VNil, dict)
    case WBool(b) => Got(VBool(b), dict)
    case WFix(n) => Got(VInt(if mode.loose then 8 else 1, n), dict)
    case WInt(k, n) => Got(VInt(if mode.loose then 8 else k, n), dict)
    case WUint(k, n) => Got(VUint(if mode.loose then 8 else k, n), dict)
    case WFloat(k, bits) =>
      Got(if mode.loose && k == 4 then VFloat(8, Floats.Widen32(bits)) else VFloat(k, bits), dict)
    case WStr(s) => Got(VStr(s), dict)
    case WBin(s) => Got(if mode.loose then VStr(s) else VBin(s), dict)
    case WExt(_, id, data) => ExtOf(mode, id, data, dict)
    case _ => Bad
  }

  function Interp(mode: Mode, w: Wire, dict: Dict): Got<Value>
    decreases w, 0
  {
    match w
    case WArr(ws) =>
      (match InterpAll(mode, ws, dict) case Bad => Bad case Got(vs, d) => Got(VArr(vs), d))
    case WMap(ws) =>
      (match InterpEntries(mode, ws, dict) case Bad => Bad case Got(m, d) => Got(VMap(m), d))
    case _ => ScalarOf(mode, w, dict)
  }

  function InterpAll(mode: Mode, ws: seq<Wire>, dict: Dict): Got<seq<Value>>
    decreases ws, 1
  {
    if ws == [] then Got([], dict) else
    match Interp(mode, ws[0], dict)
    case Bad => Bad
    case Got(v, d) =>
      match InterpAll(mode, ws[1..], d)
      case Bad => Bad
      case Got(vs, d') => Got([v] + vs, d')
  }

  /** String-keyed entries; of equal keys the last one wins. */
  function InterpEntries(mode: Mode, ws: seq<Wire>, dict: Dict): Got<map<bytes, Value>>
    decreases ws, 1
  {
    if |ws| < 2 then Got(map[], dict) else
    match StringOf(mode.intern, ws[0], dict)
    case Bad => Bad
    case Got(k, d) =>
      match Interp(mode, ws[1], d)
      case Bad => Bad
      case Got(v, d') => Put(k, v, InterpEntries(mode, ws[2..], d'))
  }

  function Put(k: bytes, v: Value, r: Got<map<bytes, Value>>): Got<map<bytes, Value>> {
    match r case Bad => Bad case Got(m, d) => Got(map[k := v] + m, d)
  }

  // ---- the loose mode widens the strict result, recursively ----

  function Widen(v: Value): Value
    decreases v, 0
  {
    match v
    case VInt(_, n) => VInt(8, n)
    case VUint(_, n) => VUint(8, n)
    case VFloat(k, bits) => if k == 4 then VFloat(8, Floats.Widen32(bits)) else v
    case VBin(s) => VStr(s)
    case VArr(vs) => VArr(WidenAll(vs))
    case VMap(m) => VMap(map k | k in m :: Widen(m[k]))
    case _ => v
  }

  function WidenAll(vs: seq<Value>): seq<Value>
    decreases vs, 1
  {
    if vs == [] then [] else [Widen(vs[0])] + WidenAll(vs[1..])
  }

  function WidenMap(m: map<bytes, Value>): map<bytes, Value> { Widen(VMap(m)).m }

  lemma WidenEmpty()
    ensures WidenMap(map[]) == map[]
  {}

  lemma WidenPut(k: bytes, v: Value, m: map<bytes, Value>)
    ensures WidenMap(map[k := v] + m) == map[k := Widen(v)] + WidenMap(m)
  {}

  /** Loose decoding accepts exactly what strict decoding accepts, leaves the dictionary the
      same, and yields the strict value widened at every level. */
  lemma {:induction false} LooseIsWidened(mode: Mode, w: Wire, dict: Dict)
    requires !mode.loose
    ensures Interp(mode.(loose := true), w, dict)
         == (match Interp(mode, w, dict) case Bad => Bad case Got(v, d) => Got(Widen(v), d))
    decreases w, 0
  {
    hide Floats.Widen32;
    match w
    case WArr(ws) => LooseAllIsWidened(mode, ws, dict);
    case WMap(ws) => LooseEntriesAreWidened(mode, ws, dict);
    case _ =>
  }

  lemma {:induction false} LooseAllIsWidened(mode: Mode, ws: seq<Wire>, dict: Dict)
    requires !mode.loose
    ensures InterpAll(mode.(loose := true), ws, dict)
         == (match InterpAll(mode, ws, dict) case Bad => Bad case Got(vs, d) => Got(WidenAll(vs), d))
    decreases ws, 1
  {
    hide Interp, Widen;
    if ws == [] {
    } else {
      LooseIsWidened(mode, ws[0], dict);
      if Interp(mode, ws[0], dict).Got? {
        LooseAllIsWidened(mode, ws[1..], Interp(mode, ws[0], dict).dict);
      }
    }
  }

  lemma {:induction false} LooseEntriesAreWidened(mode: Mode, ws: seq<Wire>, dict: Dict)
    requires !mode.loose
    ensures InterpEntries(mode.(loose := true), ws, dict)
         == (match InterpEntries(mode, ws, dict) case Bad => Bad case Got(m, d) => Got(WidenMap(m), d))
    decreases ws, 1
  {
    hide Interp, Widen, StringOf, WidenMap;
    WidenEmpty();
    if |ws| >= 2 && StringOf(mode.intern, ws[0], dict).Got? {
      var Got(k, d) := StringOf(mode.intern, ws[0], dict);
      LooseIsWidened(mode, ws[1], d);
      if Interp(mode, ws[1], d).Got? {
        var Got(v, d') := Interp(mode, ws[1], d);
        LooseEntriesAreWidened(mode, ws[2..], d');
        if InterpEntries(mode, ws[2..], d').Got? {
          WidenPut(k, v, InterpEntries(mode, ws[2..], d').val);
        }
      }
    }
  }

  // ---- decoding from bytes: parse, check the limits, interpret ----

  datatype Dec<+T> = Fail | Done(val: T, end: nat, dict: Dict)

  function Finish<T>(r: Got<T>, end: nat): Dec<T> {
    match r case Bad => Fail case Got(v, d) => Done(v, end, d)
  }

  /** A decoder call that returned r and left pos and dict did what spec says. */
  ghost predicate Yields<T>(r: Option<T>, pos: nat, dict: Dict, spec: Dec<T>) {
    match spec
    case Fail => r.None?
    case Done(v, e, d) => r == Some(v) && pos == e && dict == d
  }

  /** The value at pos, if it is within the limits and has a meaning. */
  function DecodeAt(mode: Mode, input: bytes, pos: nat, lim: Limits, dict: Dict): Dec<Value> {
    match BoundedAt(input, pos, lim)
    case Err => Fail
    case Ok(w, e) => Finish(Interp(mode, w, dict), e)
  }

  /** Like DecodeAt, but a scalar at the top is read as top says, whatever the mode. */
  function DecodeTopAt(top: bool, mode: Mode, input: bytes, pos: nat, lim: Limits, dict: Dict): Dec<Value> {
    match BoundedAt(input, pos, lim)
    case Err => Fail
    case Ok(w, e) =>
      if w.WArr? || w.WMap? then Finish(Interp(mode, w, dict), e)
      else Finish(ScalarOf(mode.(loose := top), w, dict), e)
  }

  /** n values in a row, each within the limits. */
  function ItemsAt(mode: Mode, input: bytes, pos: nat, n: nat, lim: Limits, dict: Dict): Dec<seq<Value>> {
    match RowAt(input, pos, n, lim)
    case Err => Fail
    case Ok(ws, e) => Finish(InterpAll(mode, ws, dict), e)
  }

  /** n string-keyed pairs in a row. */
  function EntriesAt(mode: Mode, input: bytes, pos: nat, n: nat, lim: Limits, dict: Dict): Dec<map<bytes, Value>> {
    match RowAt(input, pos, 2 * n, lim)
    case Err => Fail
    case Ok(ws, e) => Finish(InterpEntries(mode, ws, dict), e)
  }

  /** A string at pos, as DecodeString reads it. */
  function StringAt(intern: bool, input: bytes, pos: nat, dict: Dict): Dec<bytes> {
    match Parse(input, pos)
    case Err => Fail
    case Ok(w, e) => Finish(StringOf(intern, w, dict), e)
  }

  function Prepend<T>(done: seq<T>, r: Dec<seq<T>>): Dec<seq<T>> {
    match r case Fail => Fail case Done(vs, e, d) => Done(done + vs, e, d)
  }

  function Under<K, V>(done: map<K, V>, r: Dec<map<K, V>>): Dec<map<K, V>> {
    match r case Fail => Fail case Done(m, e, d) => Done(done + m, e, d)
  }

  lemma TopScalar(top: bool, mode: Mode, input: bytes, pos: nat, lim: Limits, dict: Dict)
    requires pos < |input| && KindOf(input[pos]) != ArrCode && KindOf(input[pos]) != MapCode
    requires lim.room >= 1
    ensures DecodeTopAt(top, mode, input, pos, lim, dict)
         == (match Parse(input, pos)
             case Err => Fail
             case Ok(w, e) => Finish(ScalarOf(mode.(loose := top), w, dict), e))
  {
    hide KindOf, Arg, ScalarOf, ParseSeq, Interp;
    BoundedScalar(input, pos, lim);
  }

  /** Strings and byte strings as values: never interned, and bytes turn to strings when loose. */
  lemma TopString(top: bool, mode: Mode, input: bytes, pos: nat, c: byte, lim: Limits, dict: Dict)
    requires pos < |input| && c == input[pos] && (IsString(c) || IsBin(c)) && lim.room >= 1
    ensures DecodeTopAt(top, mode, input, pos, lim, dict)
         == (match StringAt(false, input, pos, [])
             case Fail => Fail
             case Done(s, e, _) => Done(if IsBin(c) && !top then VBin(s) else VStr(s), e, dict))
  {
    hide KindOf, Arg, ParseSeq, Interp, IsString, IsBin, IsExt, IsArray, IsMap, IsFixedNum, DecodeTopAt;
    KindTable(c);
    TopScalar(top, mode, input, pos, lim, dict);
  }

  /** The value of a number code with argument a. */
  function NumberValue(top: bool, c: byte, a: nat): Value {
    var k := ArgWidth(c);
    if c == FLOAT || c == DOUBLE then
      if top then VFloat(8, Numbers.Double(k, a)) else VFloat(k, a)
    else if c == INT8 || c == INT16 || c == INT32 || c == INT64 then VInt(if top then 8 else k, Signed(a, k))
    else VUint(if top then 8 else k, a)
  }

  lemma TopNumber(top: bool, mode: Mode, input: bytes, pos: nat, c: byte, lim: Limits, dict: Dict)
    requires pos < |input| && c == input[pos] && Numbers.IsNumber(c) && lim.room >= 1
    ensures DecodeTopAt(top, mode, input, pos, lim, dict)
         == (match Arg(input, pos + 1, c)
             case Err => Fail
             case Ok(a, p) => Done(NumberValue(top, c, a), p, dict))
  {
    hide DecodeTopAt, KindOf, Arg, Parse, Signed, Floats.Widen32;
    KindTable(c);
    TopScalar(top, mode, input, pos, lim, dict);
    Numbers.ParseByCode(input, pos, c);
  }

  lemma TopSimple(top: bool, mode: Mode, input: bytes, pos: nat, c: byte, lim: Limits, dict: Dict)
    requires pos < |input| && c == input[pos] && lim.room >= 1
    ensures IsFixedNum(c) ==>
      DecodeTopAt(top, mode, input, pos, lim, dict)
      == Done(VInt(if top then 8 else 1, Signed(c, 1)), pos + 1, dict)
    ensures c == NIL ==> DecodeTopAt(top, mode, input, pos, lim, dict) == Done(VNil, pos + 1, dict)
    ensures c == FALSE || c == TRUE ==>
      DecodeTopAt(top, mode, input, pos, lim, dict) == Done(VBool(c == TRUE), pos + 1, dict)
    ensures KindOf(c) == UnusedCode ==> DecodeTopAt(top, mode, input, pos, lim, dict) == Fail
  {
    hide DecodeTopAt, KindOf, Parse, Signed;
    KindTable(c);
    if !IsArray(c) && !IsMap(c) {
      TopScalar(top, mode, input, pos, lim, dict);
      Numbers.ParseByCode(input, pos, c);
    }
  }

  /** An ext payload of n bytes whose type byte stands at p. */
  function ExtAt(mode: Mode, input: bytes, p: nat, n: nat, dict: Dict): Dec<Value> {
    if p + 1 + n > |input| then Fail
    else Finish(ExtOf(mode, Signed(input[p], 1), input[p + 1..p + 1 + n], dict), p + 1 + n)
  }

  lemma TopExt(top: bool, mode: Mode, input: bytes, pos: nat, c: byte, lim: Limits, dict: Dict)
    requires pos < |input| && c == input[pos] && KindOf(c) == ExtCode && lim.room >= 1
    ensures DecodeTopAt(top, mode, input, pos, lim, dict)
         == (match Arg(input, pos + 1, c)
             case Err => Fail
             case Ok(n, p) => ExtAt(mode, input, p, n, dict))
  {
    hide KindOf, Arg, ParseSeq, Interp, ExtOf, Signed, DecodeTopAt;
    TopScalar(top, mode, input, pos, lim, dict);
    ExtIgnoresLoose(mode, top);
  }

  lemma ExtIgnoresLoose(mode: Mode, top: bool)
    ensures forall id, data, dict ::
      ExtOf(mode.(loose := top), id, data, dict) == ExtOf(mode, id, data, dict)
  {
    hide Lookup, Time.Unpack;
  }

  lemma TopArr(top: bool, mode: Mode, input: bytes, pos: nat, sized: bool, lim: Limits, dict: Dict)
    requires pos < |input| && KindOf(input[pos]) == ArrCode && lim.room >= 1
    ensures DecodeTopAt(top, mode, input, pos, lim, dict)
         == (match Arg(input, pos + 1, input[pos])
             case Err => Fail
             case Ok(n, p) =>
               if n > lim.cap then Fail else
               match ItemsAt(mode, input, p, n, Deeper(lim), dict)
               case Fail => Fail
               case Done(vs, e, d) => Done(VArr(vs), e, d))
    ensures Refused(input, pos + 1, input[pos], sized, lim.cap, 1) ==>
      DecodeTopAt(top, mode, input, pos, lim, dict) == Fail
  {
    hide BoundedAt, Arg, KindOf, RowAt, Refused, InterpAll;
    BoundedArr(input, pos, sized, lim);
  }

  lemma TopMap(top: bool, mode: Mode, input: bytes, pos: nat, sized: bool, lim: Limits, dict: Dict)
    requires pos < |input| && KindOf(input[pos]) == MapCode && lim.room >= 1
    ensures DecodeTopAt(top, mode, input, pos, lim, dict)
         == (match Arg(input, pos + 1, input[pos])
             case Err => Fail
             case Ok(n, p) =>
               if n > lim.cap then Fail else
               match EntriesAt(mode, input, p, n, Deeper(lim), dict)
               case Fail => Fail
               case Done(m, e, d) => Done(VMap(m), e, d))
    ensures Refused(input, pos + 1, input[pos], sized, lim.cap, 2) ==>
      DecodeTopAt(top, mode, input, pos, lim, dict) == Fail
  {
    hide BoundedAt, Arg, KindOf, RowAt, Refused, InterpEntries;
    BoundedMap(input, pos, sized, lim);
  }

  lemma TopIsDecode(mode: Mode, input: bytes, pos: nat, lim: Limits, dict: Dict)
    ensures DecodeTopAt(mode.loose, mode, input, pos, lim, dict) == DecodeAt(mode, input, pos, lim, dict)
  {
    hide BoundedAt, ScalarOf;
    assert mode.(loose := mode.loose) == mode;
  }

  /** A row of values is the first value, then the rest of the row with the new dictionary. */
  lemma {:induction false} ItemsStep(mode: Mode, input: bytes, pos: nat, n: nat, lim: Limits, dict: Dict)
    requires n > 0
    ensures ItemsAt(mode, input, pos, n, lim, dict)
         == (match DecodeAt(mode, input, pos, lim, dict)
             case Fail => Fail
             case Done(v, p, d) => Prepend([v], ItemsAt(mode, input, p, n - 1, lim, d)))
  {
    hide BoundedAt, RowAt, Interp;
    RowStep(input, pos, n, lim);
    if RowAt(input, pos, n, lim).Ok? {
      var ws := RowAt(input, pos, n, lim).val;
      assert ws == [ws[0]] + ws[1..];
    }
  }

  lemma StringBounded(intern: bool, input: bytes, pos: nat, lim: Limits, dict: Dict)
    requires lim.room >= 1
    ensures StringAt(intern, input, pos, dict)
         == (match BoundedAt(input, pos, lim)
             case Err => Fail
             case Ok(w, e) => Finish(StringOf(intern, w, dict), e))
  {
    hide Parse;
  }

  /** A row of pairs is a key, a value one level down, then the rest of the row. */
  lemma {:induction false} EntriesStep(mode: Mode, input: bytes, pos: nat, n: nat, lim: Limits, dict: Dict)
    requires n > 0
    ensures EntriesAt(mode, input, pos, n, lim, dict)
         == (match StringAt(mode.intern, input, pos, dict)
             case Fail => Fail
             case Done(k, p, d) =>
               match DecodeAt(mode, input, p, lim, d)
               case Fail => Fail
               case Done(v, p', d') => Under(map[k := v], EntriesAt(mode, input, p', n - 1, lim, d')))
  {
    hide BoundedAt, RowAt, Interp, InterpEntries, StringOf, StringAt;
    RowPair(input, pos, 2 * n, lim);
    assert 2 * n - 2 == 2 * (n - 1);
    if lim.room < 1 {
      RoomNeeded(input, lim);
    } else {
      StringBounded(mode.intern, input, pos, lim, dict);
      if RowAt(input, pos, 2 * n, lim).Ok? {
        var key := BoundedAt(input, pos, lim);
        var value := BoundedAt(input, key.end, lim);
        EntriesPair(mode, key.val, value.val, RowAt(input, value.end, 2 * (n - 1), lim).val, dict);
      }
    }
  }

  lemma {:induction false} EntriesPair(mode: Mode, k: Wire, v: Wire, ws: seq<Wire>, dict: Dict)
    ensures InterpEntries(mode, [k, v] + ws, dict)
         == (match StringOf(mode.intern, k, dict)
             case Bad => Bad
             case Got(s, d) =>
               match Interp(mode, v, d)
               case Bad => Bad
               case Got(x, d') => Put(s, x, InterpEntries(mode, ws, d')))
  {
    hide Interp, StringOf;
    assert ([k, v] + ws)[2..] == ws;
  }

  /** How a string is read, code by code. */
  lemma {:induction false} StringByCode(intern: bool, input: bytes, pos: nat, dict: Dict)
    ensures pos >= |input| ==> StringAt(intern, input, pos, dict) == Fail
    ensures pos < |input| ==>
      StringAt(intern, input, pos, dict)
      == (match KindOf(input[pos])
          case NilCode => Done([], pos + 1, dict)
          case StrCode => PayloadAt(intern, input, pos + 1, input[pos], dict)
          case BinCode => PayloadAt(intern, input, pos + 1, input[pos], dict)
          case ExtCode =>
            (match Arg(input, pos + 1, input[pos])
             case Err => Fail
             case Ok(n, p) =>
               if p + 1 + n <= |input| && (intern || |dict| > 0) && IsFixedExt(input[pos])
                  && Signed(input[p], 1) == INTERNED_ID
               then Finish(Lookup(dict, input[p + 1..p + 1 + n]), p + 1 + n)
               else Fail)
          case _ => Fail)
  {
    hide Lookup, Remember, ParseSeq, Signed, FromBe, IsFixedExt;
  }

  function PayloadAt(intern: bool, input: bytes, p: nat, c: byte, dict: Dict): Dec<bytes> {
    match Arg(input, p, c)
    case Err => Fail
    case Ok(n, q) =>
      if q + n <= |input| then Done(input[q..q + n], q + n, Remember(intern, dict, input[q..q + n]))
      else Fail
  }

  /** A refused length is one whose payload is not all there. */
  lemma PayloadRefused(intern: bool, input: bytes, p: nat, c: byte, sized: bool, dict: Dict)
    requires KindOf(c) == StrCode || KindOf(c) == BinCode
    requires Refused(input, p, c, sized, MAX_LEN, 1)
    ensures PayloadAt(intern, input, p, c, dict) == Fail
  {
    hide Arg, KindOf;
    ArgBound(input, p, c);
    CodeWidths(c);
  }

  /** How a string is read when there is no dictionary. */
  lemma StringPlain(input: bytes, pos: nat, c: byte, sized: bool)
    requires pos < |input| && c == input[pos]
    ensures c == NIL ==> StringAt(false, input, pos, []) == Done([], pos + 1, [])
    ensures KindOf(c) == StrCode || KindOf(c) == BinCode ==>
      StringAt(false, input, pos, [])
      == (match Arg(input, pos + 1, c)
          case Err => Fail
          case Ok(n, q) => if q + n <= |input| then Done(input[q..q + n], q + n, []) else Fail)
    ensures (KindOf(c) == StrCode || KindOf(c) == BinCode) && Refused(input, pos + 1, c, sized, MAX_LEN, 1) ==>
      StringAt(false, input, pos, []) == Fail
    ensures c != NIL && KindOf(c) != StrCode && KindOf(c) != BinCode ==>
      StringAt(false, input, pos, []) == Fail
  {
    hide StringAt, KindOf, Arg, Refused, IsFixedExt;
    StringByCode(false, input, pos, []);
    KindTable(c);
    if (KindOf(c) == StrCode || KindOf(c) == BinCode) && Refused(input, pos + 1, c, sized, MAX_LEN, 1) {
      PayloadRefused(false, input, pos + 1, c, sized, []);
    }
  }

  /** A dictionary reference of n payload bytes whose type byte stands at p. */
  function ReferenceAt(input: bytes, p: nat, n: nat, dict: Dict): Dec<bytes> {
    if p + 1 + n <= |input| && Signed(input[p], 1) == INTERNED_ID
    then Finish(Lookup(dict, input[p + 1..p + 1 + n]), p + 1 + n)
    else Fail
  }

  /** How a string is read when interning is on or a dictionary is in place. */
  lemma StringInterned(intern: bool, input: bytes, pos: nat, c: byte, dict: Dict)
    requires pos < |input| && c == input[pos] && (intern || |dict| > 0)
    ensures c == NIL ==> StringAt(intern, input, pos, dict) == Done([], pos + 1, dict)
    ensures KindOf(c) == StrCode || KindOf(c) == BinCode <==> IsString(c) || IsBin(c)
    ensures IsString(c) || IsBin(c) ==>
      StringAt(intern, input, pos, dict)
      == (match Arg(input, pos + 1, c)
          case Err => Fail
          case Ok(n, q) =>
            if q + n <= |input|
            then Done(input[q..q + n], q + n, Remember(intern, dict, input[q..q + n])) else Fail)
    ensures c == FIXEXT1 || c == FIXEXT2 || c == FIXEXT4 ==>
      StringAt(intern, input, pos, dict) == ReferenceAt(input, pos + 1, FixArg(c), dict)
    ensures c != NIL && !IsString(c) && !IsBin(c) && c != FIXEXT1 && c != FIXEXT2 && c != FIXEXT4 ==>
      StringAt(intern, input, pos, dict) == Fail
  {
    hide StringAt, KindOf, Remember, Signed, FromBe;
    StringByCode(intern, input, pos, dict);
    KindTable(c);
    if IsExt(c) {
      hide IsString, IsBin;
    } else {
      hide Arg;
    }
  }

  // ---- the loops of the decoder, one step at a time ----

  lemma PrependEmpty<T>(r: Dec<seq<T>>)
    ensures Prepend([], r) == r
  {
    if r.Done? { assert [] + r.val == r.val; }
  }

  lemma PrependTwice<T>(done: seq<T>, v: T, r: Dec<seq<T>>)
    ensures Prepend(done, Prepend([v], r)) == Prepend(done + [v], r)
  {
    if r.Done? { assert done + ([v] + r.val) == done + [v] + r.val; }
  }

  lemma UnderEmpty<K, V>(r: Dec<map<K, V>>)
    ensures Under(map[], r) == r
  {
    if r.Done? { assert map[] + r.val == r.val; }
  }

  lemma UnderTwice<K, V>(done: map<K, V>, k: K, v: V, r: Dec<map<K, V>>)
    ensures Under(done, Under(map[k := v], r)) == Under(done[k := v], r)
  {
    if r.Done? { assert done + (map[k := v] + r.val) == done[k := v] + r.val; }
  }

  /** One more element: a failing value fails the row, any other joins the slice. */
  lemma ItemsNext(s: seq<Value>, mode: Mode, input: bytes, pos: nat, n: nat, lim: Limits, dict: Dict)
    requires n > 0
    ensures match DecodeAt(mode, input, pos, lim, dict)
            case Fail => Prepend(s, ItemsAt(mode, input, pos, n, lim, dict)) == Fail
            case Done(v, p, d) =>
              Prepend(s, ItemsAt(mode, input, pos, n, lim, dict))
              == Prepend(s + [v], ItemsAt(mode, input, p, n - 1, lim, d))
  {
    hide ItemsAt, DecodeAt;
    ItemsStep(mode, input, pos, n, lim, dict);
    match DecodeAt(mode, input, pos, lim, dict)
    case Fail =>
    case Done(v, p, d) => PrependTwice(s, v, ItemsAt(mode, input, p, n - 1, lim, d));
  }

  lemma ItemsDone(s: seq<Value>, mode: Mode, input: bytes, pos: nat, lim: Limits, dict: Dict)
    requires lim.room >= 0
    ensures Prepend(s, ItemsAt(mode, input, pos, 0, lim, dict)) == Done(s, pos, dict)
  {
    hide RowAt;
    RowEmpty(input, pos, lim);
    assert s + [] == s;
  }

  /** One more pair: a failing key or value fails the row, any other pair joins the map. */
  lemma EntriesNext(m: map<bytes, Value>, mode: Mode, input: bytes, pos: nat, n: nat, lim: Limits, dict: Dict)
    requires n > 0
    ensures match StringAt(mode.intern, input, pos, dict)
            case Fail => Under(m, EntriesAt(mode, input, pos, n, lim, dict)) == Fail
            case Done(k, p, d) =>
              match DecodeAt(mode, input, p, lim, d)
              case Fail => Under(m, EntriesAt(mode, input, pos, n, lim, dict)) == Fail
              case Done(v, q, e) =>
                Under(m, EntriesAt(mode, input, pos, n, lim, dict))
                == Under(m[k := v], EntriesAt(mode, input, q, n - 1, lim, e))
  {
    hide EntriesAt, DecodeAt, StringAt;
    EntriesStep(mode, input, pos, n, lim, dict);
    match StringAt(mode.intern, input, pos, dict)
    case Fail =>
    case Done(k, p, d) =>
      match DecodeAt(mode, input, p, lim, d)
      case Fail =>
      case Done(v, q, e) => UnderTwice(m, k, v, EntriesAt(mode, input, q, n - 1, lim, e));
  }

  lemma EntriesDone(m: map<bytes, Value>, mode: Mode, input: bytes, pos: nat, lim: Limits, dict: Dict)
    requires lim.room >= 0
    ensures Under(m, EntriesAt(mode, input, pos, 0, lim, dict)) == Done(m, pos, dict)
  {
    hide RowAt;
    RowEmpty(input, pos, lim);
    assert m + map[] == m;
  }

  lemma DecodeAdvances(mode: Mode, input: bytes, pos: nat, lim: Limits, dict: Dict)
    ensures DecodeAt(mode, input, pos, lim, dict).Done? ==>
      pos < DecodeAt(mode, input, pos, lim, dict).end && lim.room >= 1
  {
    hide BoundedAt, Interp;
    HeightPositiveAt(input, pos, lim);
  }

  lemma NothingLeft(top: bool, mode: Mode, input: bytes, pos: nat, lim: Limits, dict: Dict)
    requires pos <= |input|
    ensures pos == |input| ==> DecodeTopAt(top, mode, input, pos, lim, dict) == Fail
  {}

  /** The top flag matters to scalars only. */
  lemma ContainersIgnoreTop(mode: Mode, input: bytes, pos: nat, lim: Limits, dict: Dict)
    requires pos <= |input| && lim.room >= 1
    ensures pos < |input| && (KindOf(input[pos]) == ArrCode || KindOf(input[pos]) == MapCode) ==>
      DecodeTopAt(true, mode, input, pos, lim, dict) == DecodeTopAt(false, mode, input, pos, lim, dict)
  {
    hide KindOf, DecodeTopAt;
    if pos < |input| && KindOf(input[pos]) == ArrCode {
      TopArr(true, mode, input, pos, true, lim, dict);
      TopArr(false, mode, input, pos, true, lim, dict);
    } else if pos < |input| && KindOf(input[pos]) == MapCode {
      TopMap(true, mode, input, pos, true, lim, dict);
      TopMap(false, mode, input, pos, true, lim, dict);
    }
  }

  // ---- without interning the dictionary stays as it is ----

  lemma StringKeeps(w: Wire, dict: Dict)
    ensures StringOf(false, w, dict).Got? ==> StringOf(false, w, dict).dict == dict
  {}

  lemma {:induction false} DictStays(mode: Mode, w: Wire, dict: Dict)
    requires !mode.intern
    ensures Interp(mode, w, dict).Got? ==> Interp(mode, w, dict).dict == dict
    decreases w, 0
  {
    match w
    case WArr(ws) => DictStaysAll(mode, ws, dict);
    case WMap(ws) => DictStaysEntries(mode, ws, dict);
    case _ =>
  }

  lemma {:induction false} DictStaysAll(mode: Mode, ws: seq<Wire>, dict: Dict)
    requires !mode.intern
    ensures InterpAll(mode, ws, dict).Got? ==> InterpAll(mode, ws, dict).dict == dict
    decreases ws, 1
  {
    hide Interp;
    if ws == [] {
    } else {
      DictStays(mode, ws[0], dict);
      DictStaysAll(mode, ws[1..], dict);
    }
  }

  lemma {:induction false} DictStaysEntries(mode: Mode, ws: seq<Wire>, dict: Dict)
    requires !mode.intern
    ensures InterpEntries(mode, ws, dict).Got? ==> InterpEntries(mode, ws, dict).dict == dict
    decreases ws, 1
  {
    hide Interp, StringOf;
    if |ws| < 2 {
    } else {
      StringKeeps(ws[0], dict);
      DictStays(mode, ws[1], dict);
      DictStaysEntries(mode, ws[2..], dict);
    }
  }
}
