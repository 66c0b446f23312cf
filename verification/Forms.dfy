/**
 What the encoder may write for a value under each of its settings: the wire trees of a value,
 that they lie within the format, and that sorted forms are canonical.
 */
module Forms {
  import opened Bytes
  import opened Buffers
  import opened Codes
  import opened Wire
  import opened Value
  import opened Intern
  import Floats
  import Numbers
  import CompactFloats
  import Time

  /** What the hardware makes of a float that is out of range for an int64. */
  type Hardware = (Floats.Format, nat) -> int64

  /** The encoder's settings, and the hardware it runs on. */
  datatype Options = Options(sorted: bool, compactInts: bool, compactFloats: bool, intern: bool, convert: Hardware)

  /** Numbers are written in the form of their type. */
  predicate KeepsTypes(o: Options) { !o.compactInts && !o.compactFloats }

  /** Byte-wise lexicographic order, Go's order of strings. */
  predicate Le(a: bytes, b: bytes) {
    a == [] || (b != [] && (a[0] < b[0] || (a[0] == b[0] && Le(a[1..], b[1..]))))
  }

  lemma {:induction false} LeTotal(a: bytes, b: bytes)
    ensures Le(a, b) || Le(b, a)
  {
    if a != [] && b != [] { LeTotal(a[1..], b[1..]); }
  }

  lemma {:induction false} LeAntisymmetric(a: bytes, b: bytes)
    requires Le(a, b) && Le(b, a)
    ensures a == b
  {
    if a != [] && b != [] {
      LeAntisymmetric(a[1..], b[1..]);
      assert a == [a[0]] + a[1..] && b == [b[0]] + b[1..];
    }
  }

  lemma {:induction false} LeTransitive(a: bytes, b: bytes, c: bytes)
    requires Le(a, b) && Le(b, c)
    ensures Le(a, c)
  {
    if a != [] && a[0] == b[0] == c[0] { LeTransitive(a[1..], b[1..], c[1..]); }
  }

  /** a comes before b: it is a proper prefix of it, or smaller at the first byte they differ in. */
  ghost predicate Before(a: bytes, b: bytes) {
    a < b || exists i :: 0 <= i < |a| && i < |b| && a[..i] == b[..i] && a[i] < b[i]
  }

  lemma {:induction false} LeIsLexicographic(a: bytes, b: bytes)
    ensures Le(a, b) <==> a == b || Before(a, b)
    decreases a
  {
    if a == [] {
      if b != [] { assert a < b; }
    } else if b == [] {
    } else if a[0] < b[0] {
      assert a[..0] == b[..0];
    } else if a[0] == b[0] {
      LeIsLexicographic(a[1..], b[1..]);
      BeforeBehind(a, b);
      assert a == [a[0]] + a[1..] && b == [b[0]] + b[1..];
    } else {
      NotBefore(a, b);
    }
  }

  lemma BeforeBehind(a: bytes, b: bytes)
    requires a != [] && b != [] && a[0] == b[0]
    ensures Before(a, b) <==> Before(a[1..], b[1..])
  {
    var s, t := a[1..], b[1..];
    assert a == [a[0]] + s && b == [b[0]] + t;
    if i :| 0 <= i < |a| && i < |b| && a[..i] == b[..i] && a[i] < b[i] {
      assert i > 0;
      assert s[..i - 1] == a[..i][1..] && t[..i - 1] == b[..i][1..];
      assert s[i - 1] < t[i - 1];
    }
    if i :| 0 <= i < |s| && i < |t| && s[..i] == t[..i] && s[i] < t[i] {
      assert a[..i + 1] == [a[0]] + s[..i] && b[..i + 1] == [b[0]] + t[..i];
      assert a[i + 1] < b[i + 1];
    }
  }

  lemma NotBefore(a: bytes, b: bytes)
    requires a != [] && b != [] && a[0] > b[0]
    ensures a != b && !Before(a, b)
  {
    forall i | 0 <= i < |a| && i < |b| && a[i] < b[i] ensures a[..i] != b[..i] {
      assert i > 0 && a[..i][0] == a[0] && b[..i][0] == b[0];
    }
  }

  ghost predicate IsLeast(k: bytes, m: map<bytes, Value>) {
    k in m && forall j :: j in m ==> Le(k, j)
  }

  /** The values Encode takes: numbers of their type's range, lengths below 2^32. */
  ghost predicate Encodable(v: Value)
    decreases v
  {
    match v
    case VNil => true
    case VBool(_) => true
    case VInt(k, n) => NumWidth(k) && InSigned(n, k)
    case VUint(k, n) => NumWidth(k) && 0 <= n < Pow256(k)
    case VFloat(k, bits) => (k == 4 || k == 8) && bits < Pow256(k)
    case VStr(s) => |s| < MAX_LEN
    case VBin(s) => |s| < MAX_LEN
    case VArr(vs) => |vs| < MAX_LEN && forall i :: 0 <= i < |vs| ==> Encodable(vs[i])
    case VMap(m) => |m| < MAX_LEN && forall k :: k in m ==> |k| < MAX_LEN && Encodable(m[k])
    case VTime(t) => Time.InRange(t)
    case VExt(id, data) =>
      -128 <= id < 128 && id != INTERNED_ID && id != Time.TIME_ID && |data| < MAX_LEN
  }

  function ExtWire(id: int, data: bytes): Wire { WExt(FixExtLen(|data|), id, data) }

  // ---- the dictionary a wire tree leaves behind ----

  /** The encoder learns every string it writes out, keys and values alike. */
  function Learned(intern: bool, w: Wire, d: Dict): Dict
    decreases w, 0
  {
    match w
    case WStr(s) => Remember(intern, d, s)
    case WArr(ws) => LearnedAll(intern, ws, d)
    case WMap(es) => LearnedAll(intern, es, d)
    case _ => d
  }

  function LearnedAll(intern: bool, ws: seq<Wire>, d: Dict): Dict
    decreases ws, 1
  {
    if ws == [] then d else LearnedAll(intern, ws[1..], Learned(intern, ws[0], d))
  }

  lemma {:induction false} LearnedSmall(intern: bool, w: Wire, d: Dict)
    requires |d| <= MAX_LEN
    ensures |Learned(intern, w, d)| <= MAX_LEN
    decreases w, 0
  {
    match w
    case WArr(ws) => LearnedAllSmall(intern, ws, d);
    case WMap(es) => LearnedAllSmall(intern, es, d);
    case _ =>
  }

  lemma {:induction false} LearnedAllSmall(intern: bool, ws: seq<Wire>, d: Dict)
    requires |d| <= MAX_LEN
    ensures |LearnedAll(intern, ws, d)| <= MAX_LEN
    decreases ws, 1
  {
    hide Learned;
    if ws == [] {
    } else {
      LearnedSmall(intern, ws[0], d);
      LearnedAllSmall(intern, ws[1..], Learned(intern, ws[0], d));
    }
  }

  lemma {:induction false} LearnedConcat(intern: bool, a: seq<Wire>, b: seq<Wire>, d: Dict)
    ensures LearnedAll(intern, a + b, d) == LearnedAll(intern, b, LearnedAll(intern, a, d))
    decreases a
  {
    hide Learned;
    if a == [] {
      assert a + b == b;
    } else {
      LearnedConcat(intern, a[1..], b, Learned(intern, a[0], d));
      assert (a + b)[1..] == a[1..] + b && (a + b)[0] == a[0];
    }
  }

  // ---- wire forms ----

  predicate FloatPattern(k: nat, bits: nat) { Floats.Pattern(CompactFloats.FormatOf(k), bits) }

  function FloatForm(o: Options, k: nat, bits: nat): Wire
    requires FloatPattern(k, bits)
  {
    var f := CompactFloats.FormatOf(k);
    if o.compactFloats then CompactFloats.CompactForm(f, bits, o.convert(f, bits)) else WFloat(k, bits)
  }

  /** The key a wire form stands for. */
  function KeyOf(w: Wire, d: Dict): bytes {
    match StringOf(false, w, d) case Bad => [] case Got(k, _) => k
  }

  /** w is a way of writing v when the dictionary holds the strings of d. A map may be written in
      any key order, or only in ascending order when sorting is on. */
  ghost predicate Encodes(o: Options, v: Value, w: Wire, d: Dict)
    decreases w, 0
  {
    match v
    case VNil => w == WNil
    case VBool(b) => w == WBool(b)
    case VInt(k, n) => w == if o.compactInts then Numbers.SmallestInt(n) else WInt(k, n)
    case VUint(k, n) => n >= 0 && w == if o.compactInts then Numbers.SmallestUint(n) else WUint(k, n)
    case VFloat(k, bits) => FloatPattern(k, bits) && w == FloatForm(o, k, bits)
    case VStr(s) => w == SentBy(d, s)
    case VBin(s) => w == WBin(s)
    case VArr(vs) => w.WArr? && EncodesAll(o, vs, w.items, d)
    case VMap(m) => w.WMap? && EncodesEntries(o, m, w.entries, d)
    case VTime(t) => Time.InRange(t) && w == ExtWire(Time.TIME_ID, Time.Pack(t))
    case VExt(id, data) => w == ExtWire(id, data)
  }

  ghost predicate EncodesAll(o: Options, vs: seq<Value>, ws: seq<Wire>, d: Dict)
    decreases ws, 1
  {
    if vs == [] || ws == [] then vs == [] && ws == []
    else Encodes(o, vs[0], ws[0], d) && EncodesAll(o, vs[1..], ws[1..], Learned(o.intern, ws[0], d))
  }

  ghost predicate EncodesEntries(o: Options, m: map<bytes, Value>, ws: seq<Wire>, d: Dict)
    decreases ws, 1
  {
    if m == map[] || |ws| < 2 then m == map[] && ws == []
    else
      var k := KeyOf(ws[0], d);
      var d1 := Learned(o.intern, ws[0], d);
      && k in m && ws[0] == SentBy(d, k) && (o.sorted ==> IsLeast(k, m))
      && Encodes(o, m[k], ws[1], d1)
      && EncodesEntries(o, m - {k}, ws[2..], Learned(o.intern, ws[1], d1))
  }

  /** What is sent for a key is read as that key. */
  lemma KeyOfSent(d: Dict, k: bytes)
    requires |d| <= MAX_LEN
    ensures KeyOf(SentBy(d, k), d) == k
  {
    hide Reference;
    if k in d { ReferenceRead(false, IndexIn(d, k), d); }
  }

  lemma SentByValid(d: Dict, s: bytes)
    requires |d| <= MAX_LEN && |s| < MAX_LEN
    ensures Valid(SentBy(d, s))
  {
    hide Reference;
    if s in d { ReferenceData(IndexIn(d, s)); }
  }

  // ---- every form lies within the format ----

  lemma {:induction false} EncodesValid(o: Options, v: Value, w: Wire, d: Dict)
    requires |d| <= MAX_LEN && Encodable(v)
    requires Encodes(o, v, w, d)
    ensures Valid(w)
    decreases w, 0
  {
    hide Time.Pack, Pow256, EncodesAll, EncodesEntries, ValidAll, SentBy, FloatForm,
      Numbers.SmallestInt, Numbers.SmallestUint;
    match v
    case VInt(k, n) => SizedRange(v); Numbers.SmallestIntValid(n);
    case VUint(k, n) => SizedRange(v); Numbers.SmallestUintRoundTrip(n, 0);
    case VStr(s) => SentByValid(d, s);
    case VFloat(k, bits) => SizedRange(v); FloatFormValid(o, k, bits);
    case VArr(vs) => EncodesAllValid(o, vs, w.items, d);
    case VMap(m) => EncodesEntriesValid(o, m, w.entries, d);
    case VTime(t) => Time.PackLength(t);
    case _ =>
  }

  lemma FloatFormValid(o: Options, k: nat, bits: nat)
    requires FloatPattern(k, bits) && (k == 4 || k == 8)
    ensures Valid(FloatForm(o, k, bits))
  {
    hide CompactFloats.CompactForm;
    CompactFloats.FloatValid(CompactFloats.FormatOf(k), bits);
  }

  /** The types of numbers lie within 64 bits. */
  lemma SizedRange(v: Value)
    requires Encodable(v)
    ensures v.VInt? ==> -TWO63 <= v.n < TWO63
    ensures v.VUint? ==> 0 <= v.n < TWO64
    ensures v.VFloat? ==> FloatPattern(v.width, v.bits) && (v.width == 4 || v.width == 8)
  {
    PowValues();
  }

  lemma {:induction false} EncodesAllValid(o: Options, vs: seq<Value>, ws: seq<Wire>, d: Dict)
    requires (forall i :: 0 <= i < |vs| ==> Encodable(vs[i])) && EncodesAll(o, vs, ws, d) && |d| <= MAX_LEN
    ensures ValidAll(ws) && |ws| == |vs|
    decreases ws, 1
  {
    hide Encodable, Encodes, Valid, Learned;
    if ws == [] {
    } else {
      EncodesValid(o, vs[0], ws[0], d);
      LearnedSmall(o.intern, ws[0], d);
      EncodesAllValid(o, vs[1..], ws[1..], Learned(o.intern, ws[0], d));
    }
  }

  lemma {:induction false} EncodesEntriesValid(o: Options, m: map<bytes, Value>, ws: seq<Wire>, d: Dict)
    requires (forall k :: k in m ==> |k| < MAX_LEN && Encodable(m[k])) && EncodesEntries(o, m, ws, d)
    requires |d| <= MAX_LEN
    ensures ValidAll(ws) && |ws| == 2 * |m|
    decreases ws, 1
  {
    hide Encodable, Encodes, Valid, Learned, SentBy, IsLeast, KeyOf;
    if ws == [] {
    } else {
      var k, d1 := KeyOf(ws[0], d), Learned(o.intern, ws[0], d);
      SentByValid(d, k);
      LearnedSmall(o.intern, ws[0], d);
      LearnedSmall(o.intern, ws[1], d1);
      EncodesValid(o, m[k], ws[1], d1);
      EncodesEntriesValid(o, m - {k}, ws[2..], Learned(o.intern, ws[1], d1));
      assert m == (m - {k})[k := m[k]];
      ValidPair(ws);
    }
  }

  lemma ValidPair(ws: seq<Wire>)
    requires |ws| >= 2 && Valid(ws[0]) && Valid(ws[1]) && ValidAll(ws[2..])
    ensures ValidAll(ws)
  {
    assert ws[1..][1..] == ws[2..];
    assert ws[1..][0] == ws[1];
    assert ValidAll(ws[1..]);
  }

  // ---- sorted forms ----

  /** Ascending order is one of the orders a map may be written in. */
  lemma {:induction false} SortedIsAny(o: Options, v: Value, w: Wire, d: Dict)
    requires Encodes(o, v, w, d)
    ensures Encodes(o.(sorted := false), v, w, d)
    decreases w, 0
  {
    hide EncodesAll, EncodesEntries, Time.Pack, CompactFloats.CompactForm, Numbers.SmallestInt,
      Numbers.SmallestUint, SentBy;
    match v
    case VArr(vs) => SortedAllIsAny(o, vs, w.items, d);
    case VMap(m) => SortedEntriesIsAny(o, m, w.entries, d);
    case _ =>
  }

  lemma {:induction false} SortedAllIsAny(o: Options, vs: seq<Value>, ws: seq<Wire>, d: Dict)
    requires EncodesAll(o, vs, ws, d)
    ensures EncodesAll(o.(sorted := false), vs, ws, d)
    decreases ws, 1
  {
    hide Encodes, Learned;
    if ws == [] {
    } else {
      SortedIsAny(o, vs[0], ws[0], d);
      SortedAllIsAny(o, vs[1..], ws[1..], Learned(o.intern, ws[0], d));
    }
  }

  lemma {:induction false} SortedEntriesIsAny(o: Options, m: map<bytes, Value>, ws: seq<Wire>, d: Dict)
    requires EncodesEntries(o, m, ws, d)
    ensures EncodesEntries(o.(sorted := false), m, ws, d)
    decreases ws, 1
  {
    hide Encodes, Learned, SentBy, KeyOf, IsLeast;
    if ws == [] {
    } else {
      var k, d1 := KeyOf(ws[0], d), Learned(o.intern, ws[0], d);
      SortedIsAny(o, m[k], ws[1], d1);
      SortedEntriesIsAny(o, m - {k}, ws[2..], Learned(o.intern, ws[1], d1));
    }
  }

  // ---- what compaction forgets ----

  /** A number's form as a value of the type it names; a one-byte form has no type. */
  function NumberOf(w: Wire): Value {
    match w
    case WFix(n) => VInt(0, n)
    case WInt(k, n) => VInt(k, n)
    case WUint(k, n) => VUint(k, n)
    case WFloat(k, bits) => VFloat(k, bits)
    case _ => VNil
  }

  /** n in the smallest type that holds it. */
  function Narrow(n: int): Value { NumberOf(Numbers.SmallestInt(n)) }

  predicate IsNumber(v: Value) { v.VInt? || v.VUint? || v.VFloat? }

  /** The value with the types of its compacted numbers forgotten. */
  function Erase(o: Options, v: Value): Value
    decreases v
  {
    match v
    case VInt(_, n) => if o.compactInts then Narrow(n) else v
    case VUint(_, n) => if o.compactInts then Narrow(n) else v
    case VFloat(k, bits) => EraseFloat(o, k, bits)
    case VArr(vs) => VArr(seq(|vs|, i requires 0 <= i < |vs| => Erase(o, vs[i])))
    case VMap(m) => VMap(map k | k in m :: Erase(o, m[k]))
    case _ => v
  }

  /** A float that is written as an integer is that integer. */
  function EraseFloat(o: Options, k: nat, bits: nat): Value {
    if !FloatPattern(k, bits) || FloatForm(o, k, bits).WFloat? then VFloat(k, bits)
    else var f := CompactFloats.FormatOf(k); Narrow(CompactFloats.HardwareInt64(f, bits, o.convert(f, bits)))
  }

  lemma NumberErased(o: Options, v: Value, w: Wire, d: Dict)
    requires IsNumber(v) && Encodable(v) && Encodes(o, v, w, d)
    ensures Erase(o, v) == NumberOf(w) && IsNumber(NumberOf(w)) && (w.WInt? ==> w.width > 0)
  {
    hide CompactFloats.CompactForm, CompactFloats.HardwareInt64, Pow256;
    SizedRange(v);
    if v.VFloat? {
      var f := CompactFloats.FormatOf(v.width);
      CompactFloats.CompactShape(f, v.bits, o.convert(f, v.bits));
    }
  }

  lemma NumberOfInjective(w1: Wire, w2: Wire)
    requires NumberOf(w1) == NumberOf(w2) && IsNumber(NumberOf(w1))
    requires (w1.WInt? ==> w1.width > 0) && (w2.WInt? ==> w2.width > 0)
    ensures w1 == w2
  {}

  /** Erasing keeps the kind of everything that is no number. */
  lemma ErasedKind(o: Options, v: Value)
    requires !IsNumber(v)
    ensures !IsNumber(Erase(o, v))
    ensures v.VArr? <==> Erase(o, v).VArr?
    ensures v.VMap? <==> Erase(o, v).VMap?
    ensures !v.VArr? && !v.VMap? ==> Erase(o, v) == v
  {}

  lemma NumberStays(o: Options, v: Value)
    requires IsNumber(v)
    ensures IsNumber(Erase(o, v))
  {
    hide CompactFloats.HardwareInt64, FloatForm;
  }

  /** Where types are kept nothing is forgotten. */
  lemma {:induction false} EraseTyped(o: Options, v: Value)
    requires KeepsTypes(o)
    ensures Erase(o, v) == v
    decreases v
  {
    match v
    case VArr(vs) =>
      forall i | 0 <= i < |vs| ensures Erase(o, vs[i]) == vs[i] { EraseTyped(o, vs[i]); }
    case VMap(m) =>
      forall k | k in m ensures Erase(o, m[k]) == m[k] { EraseTyped(o, m[k]); }
    case _ =>
  }

  // ---- sorted forms are canonical ----

  /** With sorted keys values that differ in nothing but what compaction forgets have one form,
      whatever order their maps are iterated in. */
  lemma {:induction false} SortedUnique(o: Options, v1: Value, v2: Value, w1: Wire, w2: Wire, d: Dict)
    requires o.sorted && |d| <= MAX_LEN && Encodable(v1) && Encodable(v2)
    requires Encodes(o, v1, w1, d) && Encodes(o, v2, w2, d) && Erase(o, v1) == Erase(o, v2)
    ensures w1 == w2
    decreases w1, 0
  {
    hide EncodesAll, EncodesEntries, Time.Pack, SentBy, Numbers.SmallestInt, Numbers.SmallestUint, FloatForm, Pow256,
      EraseFloat, NumberOf, Be, FixExtLen;
    if IsNumber(v1) || IsNumber(v2) {
      if IsNumber(v1) { NumberStays(o, v1); } else { ErasedKind(o, v1); }
      if IsNumber(v2) { NumberStays(o, v2); } else { ErasedKind(o, v2); }
      NumberErased(o, v1, w1, d);
      NumberErased(o, v2, w2, d);
      NumberOfInjective(w1, w2);
    } else {
      ErasedKind(o, v1);
      ErasedKind(o, v2);
      match v1
      case VArr(vs) =>
        ErasedItems(o, vs, v2.items);
        SortedAllUnique(o, vs, v2.items, w1.items, w2.items, d);
      case VMap(m) =>
        ErasedEntries(o, m, v2.m);
        SortedEntriesUnique(o, m, v2.m, w1.entries, w2.entries, d);
      case _ =>
    }
  }

  lemma ErasedItems(o: Options, vs1: seq<Value>, vs2: seq<Value>)
    requires Erase(o, VArr(vs1)) == Erase(o, VArr(vs2))
    ensures |vs1| == |vs2| && forall i :: 0 <= i < |vs1| ==> Erase(o, vs1[i]) == Erase(o, vs2[i])
  {
    var a, b := Erase(o, VArr(vs1)).items, Erase(o, VArr(vs2)).items;
    assert |a| == |vs1| && |b| == |vs2|;
    assert forall i :: 0 <= i < |vs1| ==> a[i] == Erase(o, vs1[i]);
    assert forall i :: 0 <= i < |vs2| ==> b[i] == Erase(o, vs2[i]);
  }

  lemma ErasedEntries(o: Options, m1: map<bytes, Value>, m2: map<bytes, Value>)
    requires Erase(o, VMap(m1)) == Erase(o, VMap(m2))
    ensures m1.Keys == m2.Keys && forall k :: k in m1 ==> Erase(o, m1[k]) == Erase(o, m2[k])
  {
    var a, b := Erase(o, VMap(m1)).m, Erase(o, VMap(m2)).m;
    assert a.Keys == m1.Keys && b.Keys == m2.Keys;
    assert forall k :: k in m1 ==> a[k] == Erase(o, m1[k]);
    assert forall k :: k in m2 ==> b[k] == Erase(o, m2[k]);
  }

  lemma {:induction false} SortedAllUnique(o: Options, vs1: seq<Value>, vs2: seq<Value>, ws1: seq<Wire>,
      ws2: seq<Wire>, d: Dict)
    requires o.sorted && |d| <= MAX_LEN && |vs1| == |vs2|
    requires forall i :: 0 <= i < |vs1| ==>
      Encodable(vs1[i]) && Encodable(vs2[i]) && Erase(o, vs1[i]) == Erase(o, vs2[i])
    requires EncodesAll(o, vs1, ws1, d) && EncodesAll(o, vs2, ws2, d)
    ensures ws1 == ws2
    decreases ws1, 1
  {
    hide Encodes, Learned, Encodable, Erase;
    if ws1 == [] {
    } else {
      SortedUnique(o, vs1[0], vs2[0], ws1[0], ws2[0], d);
      LearnedSmall(o.intern, ws1[0], d);
      SortedAllUnique(o, vs1[1..], vs2[1..], ws1[1..], ws2[1..], Learned(o.intern, ws1[0], d));
      assert ws1 == [ws1[0]] + ws1[1..] && ws2 == [ws2[0]] + ws2[1..];
    }
  }

  lemma {:induction false} SortedEntriesUnique(o: Options, m1: map<bytes, Value>, m2: map<bytes, Value>,
      ws1: seq<Wire>, ws2: seq<Wire>, d: Dict)
    requires o.sorted && |d| <= MAX_LEN && m1.Keys == m2.Keys
    requires forall k :: k in m1 ==> Encodable(m1[k]) && Encodable(m2[k]) && Erase(o, m1[k]) == Erase(o, m2[k])
    requires EncodesEntries(o, m1, ws1, d) && EncodesEntries(o, m2, ws2, d)
    ensures ws1 == ws2
    decreases ws1, 1
  {
    hide Encodes, Learned, Le, SentBy, KeyOf, Encodable, Erase;
    if ws1 == [] {
      assert m1 == map[];
      assert m2.Keys == {};
    } else {
      var k := KeyOf(ws1[0], d);
      assert m2 != map[];
      LeAntisymmetric(k, KeyOf(ws2[0], d));
      var d1 := Learned(o.intern, ws1[0], d);
      LearnedSmall(o.intern, ws1[0], d);
      SortedUnique(o, m1[k], m2[k], ws1[1], ws2[1], d1);
      LearnedSmall(o.intern, ws1[1], d1);
      SortedEntriesUnique(o, m1 - {k}, m2 - {k}, ws1[2..], ws2[2..], Learned(o.intern, ws1[1], d1));
      assert ws1 == ws1[..2] + ws1[2..] && ws2 == ws2[..2] + ws2[2..];
    }
  }

  /** A form stands for one value only, up to what compaction forgets. */
  lemma {:induction false} FormDetermines(o: Options, v1: Value, v2: Value, w: Wire, d: Dict)
    requires |d| <= MAX_LEN && Encodable(v1) && Encodable(v2)
    requires Encodes(o, v1, w, d) && Encodes(o, v2, w, d)
    ensures Erase(o, v1) == Erase(o, v2)
    decreases w, 0
  {
    hide EncodesAll, EncodesEntries, Encodable, Erase, Time.Pack, Be, FloatForm, NumberOf, SentBy,
      Numbers.SmallestInt, Numbers.SmallestUint;
    FormKind(o, v1, w, d);
    FormKind(o, v2, w, d);
    if IsNumber(v1) {
      NumberErased(o, v1, w, d);
      NumberErased(o, v2, w, d);
    } else if v1.VArr? {
      EncodableItems(v1);
      EncodableItems(v2);
      FormsDetermine(o, v1.items, v2.items, w.items, d);
      ItemsErased(o, v1.items, v2.items);
    } else if v1.VMap? {
      EncodableItems(v1);
      EncodableItems(v2);
      EntriesDetermine(o, v1.m, v2.m, w.entries, d);
      EntriesErased(o, v1.m, v2.m);
    } else {
      ScalarDetermines(o, v1, v2, w, d);
    }
  }

  lemma EncodableItems(v: Value)
    requires Encodable(v)
    ensures v.VArr? ==> forall i :: 0 <= i < |v.items| ==> Encodable(v.items[i])
    ensures v.VMap? ==> forall k :: k in v.m ==> Encodable(v.m[k])
  {}

  predicate Plain(v: Value) { !IsNumber(v) && !v.VArr? && !v.VMap? }

  lemma ScalarDetermines(o: Options, v1: Value, v2: Value, w: Wire, d: Dict)
    requires |d| <= MAX_LEN && Encodable(v1) && Encodable(v2) && Plain(v1) && Plain(v2)
    requires Encodes(o, v1, w, d) && Encodes(o, v2, w, d)
    ensures v1 == v2
  {
    hide Time.Pack, Be, FixExtLen;
    match v1
    case VStr(s) => KeyOfSent(d, s); if v2.VStr? { KeyOfSent(d, v2.s); }
    case VTime(t) => Time.UnpackPack(t); Time.UnpackPack(v2.t);
    case _ =>
  }

  lemma ItemsErased(o: Options, vs1: seq<Value>, vs2: seq<Value>)
    requires |vs1| == |vs2| && forall i :: 0 <= i < |vs1| ==> Erase(o, vs1[i]) == Erase(o, vs2[i])
    ensures Erase(o, VArr(vs1)) == Erase(o, VArr(vs2))
  {
    hide EraseFloat, Narrow;
    assert Erase(o, VArr(vs1)).items == Erase(o, VArr(vs2)).items;
  }

  lemma EntriesErased(o: Options, m1: map<bytes, Value>, m2: map<bytes, Value>)
    requires m1.Keys == m2.Keys && forall k :: k in m1 ==> Erase(o, m1[k]) == Erase(o, m2[k])
    ensures Erase(o, VMap(m1)) == Erase(o, VMap(m2))
  {
    hide EraseFloat, Narrow;
    assert Erase(o, VMap(m1)).m == Erase(o, VMap(m2)).m;
  }

  /** The kind of a form tells numbers and containers apart. */
  lemma FormKind(o: Options, v: Value, w: Wire, d: Dict)
    requires Encodes(o, v, w, d)
    ensures IsNumber(v) <==> w.WFix? || w.WInt? || w.WUint? || w.WFloat?
    ensures (v.VArr? <==> w.WArr?) && (v.VMap? <==> w.WMap?)
  {
    hide Be, Time.Pack, CompactFloats.HardwareInt64, CompactFloats.CompactForm, EncodesAll, EncodesEntries;
    if v.VFloat? {
      var f := CompactFloats.FormatOf(v.width);
      CompactFloats.CompactShape(f, v.bits, o.convert(f, v.bits));
    }
  }

  lemma {:induction false} FormsDetermine(o: Options, vs1: seq<Value>, vs2: seq<Value>, ws: seq<Wire>, d: Dict)
    requires |d| <= MAX_LEN
    requires forall i :: 0 <= i < |vs1| ==> Encodable(vs1[i])
    requires forall i :: 0 <= i < |vs2| ==> Encodable(vs2[i])
    requires EncodesAll(o, vs1, ws, d) && EncodesAll(o, vs2, ws, d)
    ensures |vs1| == |vs2| && forall i :: 0 <= i < |vs1| ==> Erase(o, vs1[i]) == Erase(o, vs2[i])
    decreases ws, 1
  {
    hide Encodes, Encodable, Learned, Erase;
    if ws == [] {
    } else {
      FormDetermines(o, vs1[0], vs2[0], ws[0], d);
      LearnedSmall(o.intern, ws[0], d);
      FormsDetermine(o, vs1[1..], vs2[1..], ws[1..], Learned(o.intern, ws[0], d));
      assert vs1 == [vs1[0]] + vs1[1..] && vs2 == [vs2[0]] + vs2[1..];
    }
  }

  lemma {:induction false} EntriesDetermine(o: Options, m1: map<bytes, Value>, m2: map<bytes, Value>,
      ws: seq<Wire>, d: Dict)
    requires |d| <= MAX_LEN
    requires (forall k :: k in m1 ==> Encodable(m1[k])) && (forall k :: k in m2 ==> Encodable(m2[k]))
    requires EncodesEntries(o, m1, ws, d) && EncodesEntries(o, m2, ws, d)
    ensures m1.Keys == m2.Keys && forall k :: k in m1 ==> Erase(o, m1[k]) == Erase(o, m2[k])
    decreases ws, 1
  {
    hide Encodes, Encodable, Learned, SentBy, KeyOf, IsLeast, Erase;
    if ws == [] {
    } else {
      var k, d1 := KeyOf(ws[0], d), Learned(o.intern, ws[0], d);
      LearnedSmall(o.intern, ws[0], d);
      LearnedSmall(o.intern, ws[1], d1);
      FormDetermines(o, m1[k], m2[k], ws[1], d1);
      EntriesDetermine(o, m1 - {k}, m2 - {k}, ws[2..], Learned(o.intern, ws[1], d1));
      assert m1 == (m1 - {k})[k := m1[k]] && m2 == (m2 - {k})[k := m2[k]];
      assert m1.Keys == (m1 - {k}).Keys + {k} && m2.Keys == (m2 - {k}).Keys + {k};
    }
  }

  lemma SameBytes(w1: Wire, w2: Wire)
    requires Valid(w1) && Valid(w2) && Emit(w1) == Emit(w2)
    ensures w1 == w2
  {
    hide Emit, Valid;
    EmitInjective(w1, w2, [], []);
  }

  /** With sorted keys the bytes are a canonical form, under any other settings and from the same
      dictionary: equal bytes exactly for values that differ in nothing but what compaction
      forgets, and where types are kept exactly for equal values. */
  lemma SortedCanonical(o: Options, v1: Value, w1: Wire, v2: Value, w2: Wire, d: Dict)
    requires o.sorted && |d| <= MAX_LEN
    requires Encodable(v1) && Encodes(o, v1, w1, d)
    requires Encodable(v2) && Encodes(o, v2, w2, d)
    ensures Valid(w1) && Valid(w2)
    ensures Emit(w1) == Emit(w2) <==> Erase(o, v1) == Erase(o, v2)
    ensures KeepsTypes(o) ==> (Emit(w1) == Emit(w2) <==> v1 == v2)
  {
    hide Emit, Encodes, Encodable, Valid, Erase;
    EncodesValid(o, v1, w1, d);
    EncodesValid(o, v2, w2, d);
    if Erase(o, v1) == Erase(o, v2) { SortedUnique(o, v1, v2, w1, w2, d); }
    if Emit(w1) == Emit(w2) {
      SameBytes(w1, w2);
      FormDetermines(o, v1, v2, w1, d);
    }
    if KeepsTypes(o) {
      EraseTyped(o, v1);
      EraseTyped(o, v2);
    }
  }
}
