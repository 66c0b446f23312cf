/**
 The Encoder: writes accumulate in the output, headers are staged in a small scratch buffer,
 and the intern dictionary grows as strings are written.
 */
module Encoders {
  import opened Bytes
  import opened Buffers
  import opened Codes
  import opened Wire
  import W = Wire
  import opened Value
  import opened Forms
  import opened Intern
  import Numbers
  import CompactFloats
  import Floats
  import Rounding
  import Time

  const MAX_POOLED: nat := 0x10_0000

  // ---- sorting keys ----

  ghost predicate Ascending(s: seq<bytes>) {
    forall i, j :: 0 <= i < j < |s| ==> s[i] != s[j] && Le(s[i], s[j])
  }

  /** Every key comes before the next one in byte-wise lexicographic order. */
  ghost predicate NeighboursInOrder(s: seq<bytes>) {
    forall i :: 0 <= i < |s| - 1 ==> Before(s[i], s[i + 1])
  }

  /** Puts a new key at its place in an ascending list. */
  method InsertKey(s: seq<bytes>, k: bytes) returns (r: seq<bytes>)
    requires Ascending(s) && k !in s
    ensures Ascending(r) && (forall x :: x in r <==> x == k || x in s)
  {
    hide Le;
    var i := 0;
    while i < |s| && !Le(k, s[i])
      invariant 0 <= i <= |s| && forall j :: 0 <= j < i ==> Le(s[j], k)
    {
      LeTotal(k, s[i]);
      i := i + 1;
    }
    r := s[..i] + [k] + s[i..];
    forall j | i <= j < |s| ensures Le(k, s[j]) {
      if j > i { LeTransitive(k, s[i], s[j]); }
    }
    InsertedAscending(s, k, i, r);
    InsertedMembers(s, k, i);
  }

  lemma InsertedAscending(s: seq<bytes>, k: bytes, i: nat, r: seq<bytes>)
    requires Ascending(s) && k !in s && i <= |s| && r == s[..i] + [k] + s[i..]
    requires forall j :: 0 <= j < i ==> Le(s[j], k)
    requires forall j :: i <= j < |s| ==> Le(k, s[j])
    ensures Ascending(r)
  {
    hide Le;
    forall x, y | 0 <= x < y < |r| ensures r[x] != r[y] && Le(r[x], r[y]) {
      InsertedAt(s, k, i, r, x);
      InsertedAt(s, k, i, r, y);
    }
  }

  lemma InsertedAt(s: seq<bytes>, k: bytes, i: nat, r: seq<bytes>, x: nat)
    requires i <= |s| && r == s[..i] + [k] + s[i..] && x < |r|
    ensures r[x] == if x < i then s[x] else if x == i then k else s[x - 1]
  {}

  lemma InsertedMembers(s: seq<bytes>, k: bytes, i: nat)
    requires i <= |s|
    ensures forall x :: x in s[..i] + [k] + s[i..] <==> x == k || x in s
  {
    assert s == s[..i] + s[i..];
  }

  /** The keys of a map, collected in whatever order and then sorted. */
  method SortedKeys(m: map<bytes, Value>) returns (keys: seq<bytes>)
    ensures Ascending(keys) && forall k :: k in keys <==> k in m
    ensures NeighboursInOrder(keys)
  {
    hide Le, Before;
    keys := [];
    var rest := m.Keys;
    while rest != {}
      invariant Ascending(keys) && rest <= m.Keys
      invariant forall k :: k in keys <==> k in m && k !in rest
      decreases |rest|
    {
      var k :| k in rest;
      keys := InsertKey(keys, k);
      rest := rest - {k};
    }
    AscendingIsBefore(keys);
  }

  lemma AscendingIsBefore(s: seq<bytes>)
    requires Ascending(s)
    ensures NeighboursInOrder(s)
  {
    hide Le, Before;
    forall i | 0 <= i < |s| - 1 ensures Before(s[i], s[i + 1]) { LeIsLexicographic(s[i], s[i + 1]); }
  }

  // ---- emitting row after row ----

  lemma {:induction false} EmitAppend(ws: seq<Wire>, w: Wire)
    requires ValidAll(ws) && W.Valid(w)
    ensures ValidAll(ws + [w]) && EmitAll(ws + [w]) == EmitAll(ws) + Emit(w)
    decreases ws
  {
    hide Emit, W.Valid;
    if ws == [] {
      assert ws + [w] == [w];
      assert [w][1..] == [];
      assert EmitAll([w]) == Emit(w) + EmitAll([w][1..]);
    } else {
      EmitAppend(ws[1..], w);
      assert (ws + [w])[1..] == ws[1..] + [w];
      assert EmitAll(ws + [w]) == Emit(ws[0]) + EmitAll(ws[1..] + [w]);
    }
  }

  // ---- rows in progress ----

  /** What is left to write completes what has been written. */
  ghost predicate Completes(o: Options, m: map<bytes, Value>, d: Dict, done: seq<Wire>, rest: map<bytes, Value>) {
    forall tail: seq<Wire> :: EncodesEntries(o, rest, tail, LearnedAll(o.intern, done, d)) ==>
      EncodesEntries(o, m, done + tail, d)
  }

  lemma CompletesStep(o: Options, m: map<bytes, Value>, d: Dict, done: seq<Wire>, rest: map<bytes,
      Value>, k: bytes, x: Wire)
    requires Completes(o, m, d, done, rest) && k in rest && (o.sorted ==> IsLeast(k, rest))
    requires |LearnedAll(o.intern, done, d)| <= MAX_LEN
    requires var e := LearnedAll(o.intern, done, d); Encodes(o, rest[k], x, Learned(o.intern, SentBy(e, k), e))
    ensures Completes(o, m, d, done + [SentBy(LearnedAll(o.intern, done, d), k), x], rest - {k})
  {
    hide Encodes, Le, SentBy, KeyOf, Learned, LearnedAll;
    var e := LearnedAll(o.intern, done, d);
    var kw := SentBy(e, k);
    KeyOfSent(e, k);
    LearnedPair(o.intern, done, kw, x, d);
    forall tail: seq<Wire> | EncodesEntries(o, rest - {k}, tail, LearnedAll(o.intern, done + [kw, x], d))
      ensures EncodesEntries(o, m, done + [kw, x] + tail, d)
    {
      var longer := [kw, x] + tail;
      assert longer[2..] == tail;
      assert EncodesEntries(o, rest, longer, e);
      assert done + [kw, x] + tail == done + longer;
    }
  }

  lemma LearnedPair(intern: bool, done: seq<Wire>, kw: Wire, x: Wire, d: Dict)
    ensures LearnedAll(intern, done + [kw, x], d)
         == Learned(intern, x, Learned(intern, kw, LearnedAll(intern, done, d)))
  {
    hide Learned;
    LearnedConcat(intern, done, [kw, x], d);
    assert [kw, x][1..] == [x] && [x][1..] == [];
    var e := LearnedAll(intern, done, d);
    assert LearnedAll(intern, [x], Learned(intern, kw, e)) == Learned(intern, x, Learned(intern, kw, e));
  }

  lemma CompletesAll(o: Options, m: map<bytes, Value>, d: Dict, done: seq<Wire>)
    requires Completes(o, m, d, done, map[])
    ensures EncodesEntries(o, m, done, d)
  {
    assert EncodesEntries(o, map[], [], LearnedAll(o.intern, done, d));
    assert done + [] == done;
  }

  ghost predicate CompletesItems(o: Options, vs: seq<Value>, d: Dict, done: seq<Wire>, i: nat)
    requires i <= |vs|
  {
    forall tail: seq<Wire> :: EncodesAll(o, vs[i..], tail, LearnedAll(o.intern, done, d)) ==>
      EncodesAll(o, vs, done + tail, d)
  }

  lemma CompletesItemsStep(o: Options, vs: seq<Value>, d: Dict, done: seq<Wire>, i: nat, w: Wire)
    requires i < |vs| && CompletesItems(o, vs, d, done, i) && Encodes(o, vs[i], w, LearnedAll(o.intern, done, d))
    ensures CompletesItems(o, vs, d, done + [w], i + 1)
    ensures LearnedAll(o.intern, done + [w], d) == Learned(o.intern, w, LearnedAll(o.intern, done, d))
  {
    hide Encodes, Learned;
    LearnedConcat(o.intern, done, [w], d);
    assert [w][1..] == [];
    forall tail: seq<Wire> | EncodesAll(o, vs[i + 1..], tail, LearnedAll(o.intern, done + [w], d))
      ensures EncodesAll(o, vs, done + [w] + tail, d)
    {
      var longer := [w] + tail;
      assert longer[1..] == tail;
      assert vs[i..][1..] == vs[i + 1..];
      assert EncodesAll(o, vs[i..], longer, LearnedAll(o.intern, done, d));
      assert done + [w] + tail == done + longer;
    }
  }

  lemma CompletesItemsAll(o: Options, vs: seq<Value>, d: Dict, done: seq<Wire>)
    requires CompletesItems(o, vs, d, done, |vs|)
    ensures EncodesAll(o, vs, done, d)
  {
    assert vs[|vs|..] == [];
    assert EncodesAll(o, vs[|vs|..], [], LearnedAll(o.intern, done, d));
    assert done + [] == done;
  }

  lemma NumberRange(w: Wire)
    requires W.Valid(w)
    ensures w.WInt? ==> -TWO63 <= w.n < TWO63
    ensures w.WUint? ==> 0 <= w.n < TWO64
    ensures w.WFloat? ==> (w.width == 4 || w.width == 8) && FloatPattern(w.width, w.bits)
  {
    PowValues();
  }

  /** The form of a number under the two compacting flags. */
  function SizedForm(w: Wire, o: Options): (r: Wire)
    requires W.Valid(w)
    ensures W.Valid(r)
  {
    NumberRange(w);
    match w
    case WInt(_, n) => if o.compactInts then Numbers.SmallestIntValid(n); Numbers.SmallestInt(n) else w
    case WUint(_, n) =>
      if o.compactInts then Numbers.SmallestUintRoundTrip(n, 0); Numbers.SmallestUint(n) else w
    case WFloat(k, bits) => FloatFormValid(o, k, bits); FloatForm(o, k, bits)
    case _ => w
  }

  class Encoder {
    var out: bytes                 // everything handed to the writer
    var dict: Intern.EncDict
    var buf: Buffer<byte>          // staging area for headers
    var sortKeys: bool
    var compactInts: bool
    var compactFloats: bool
    var intern: bool
    var appended: Buffer<byte>     // the storage the last Append wrote into
    const convert: Hardware        // an out-of-range float converted to an integer

    /** The header writers reslice the staging area to nine bytes without looking. */
    ghost predicate Valid()
      reads this
    {
      buf.Buffer? && buf.Valid() && buf.Cap() >= 9 && appended.Valid()
    }

    function Settings(): Options
      reads this`sortKeys, this`compactInts, this`compactFloats, this`intern
    {
      Options(sortKeys, compactInts, compactFloats, intern, convert)
    }

    /** The dictionary is one-to-one and holds exactly the strings of d, in this order. */
    ghost predicate Lists(d: Dict): (r: bool)
      reads this`dict
      ensures r ==> |d| <= MAX_LEN
    {
      Intern.Inverse(dict, d) && |d| <= MAX_LEN
    }

    constructor (convert: Hardware)
      ensures Valid() && out == [] && dict == map[] && Lists([])
      ensures Settings() == Options(false, false, false, false, convert)
    {
      this.convert := convert;
      out, dict, buf, appended := [], map[], Buffer(Repeat(0, 9), 9), NilBuffer;
      sortKeys, compactInts, compactFloats, intern := false, false, false, false;
    }

    // ---- writers ----

    method WriteCode(c: byte)
      modifies this`out
      ensures out == old(out) + [c]
    {
      out := out + [c];
    }

    method Write(s: bytes)
      modifies this`out
      ensures out == old(out) + s
    {
      out := out + s;
    }

    /** Fills the front of the staging area and writes it. */
    method WriteStaged(s: bytes)
      requires Valid() && |s| <= 9
      modifies this`out, this`buf
      ensures Valid() && out == old(out) + s
    {
      buf := Buffer(s + buf.mem[|s|..], |s|);
      Write(buf.Contents());
    }

    method Write1(code: byte, n: nat)
      requires Valid()
      modifies this`out, this`buf
      ensures Valid() && out == old(out) + ([code] + Be(n, 1))
    {
      NoLanes(n);
      WriteStaged([code, n % 0x100]);
      assert [code, n % 0x100] == [code] + [n % 0x100];
    }

    method Write2(code: byte, n: nat)
      requires Valid()
      modifies this`out, this`buf
      ensures Valid() && out == old(out) + ([code] + Be(n, 2))
    {
      hide Be;
      Lanes2(n, 0);
      NoLanes(n / 0x1_0000);
      WriteStaged([code, n / 0x100 % 0x100, n % 0x100]);
      assert [code, n / 0x100 % 0x100, n % 0x100] == [code] + Be(n, 2);
    }

    method Write4(code: byte, n: nat)
      requires Valid()
      modifies this`out, this`buf
      ensures Valid() && out == old(out) + ([code] + Be(n, 4))
    {
      hide Be;
      Lanes4(n, 0);
      NoLanes(n / 0x1_0000_0000);
      var s := [code, n / 0x100_0000 % 0x100, n / 0x1_0000 % 0x100, n / 0x100 % 0x100, n % 0x100];
      WriteStaged(s);
      assert s == [code] + Be(n, 4);
    }

    method Write8(code: byte, n: nat)
      requires Valid()
      modifies this`out, this`buf
      ensures Valid() && out == old(out) + ([code] + Be(n, 8))
    {
      hide Be;
      Lanes8(n);
      var s := [code,
                n / 0x100_0000_0000_0000 % 0x100, n / 0x1_0000_0000_0000 % 0x100,
                n / 0x100_0000_0000 % 0x100, n / 0x1_0000_0000 % 0x100,
                n / 0x100_0000 % 0x100, n / 0x1_0000 % 0x100, n / 0x100 % 0x100, n % 0x100];
      WriteStaged(s);
      assert s == [code] + Be(n, 8);
    }

    // ---- lengths ----

    method EncodeStringLen(l: nat)
      requires Valid()
      modifies this`out, this`buf
      ensures Valid() && out == old(out) + StrHead(l)
    {
      hide Be;
      if l < 32 {
        WriteCode(0xa0 + l);
      } else if l < 256 {
        Write1(STR8, l);
      } else if l <= 0xffff {
        Write2(STR16, l);
      } else {
        Write4(STR32, l);
      }
    }

    method EncodeBytesLen(l: nat)
      requires Valid()
      modifies this`out, this`buf
      ensures Valid() && out == old(out) + BinHead(l)
    {
      hide Be;
      if l < 256 {
        Write1(BIN8, l);
      } else if l <= 0xffff {
        Write2(BIN16, l);
      } else {
        Write4(BIN32, l);
      }
    }

    method EncodeArrayLen(l: nat)
      requires Valid()
      modifies this`out, this`buf
      ensures Valid() && out == old(out) + ArrHead(l)
    {
      hide Be;
      if l < 16 {
        WriteCode(0x90 + l);
      } else if l <= 0xffff {
        Write2(ARRAY16, l);
      } else {
        Write4(ARRAY32, l);
      }
    }

    method EncodeMapLen(l: nat)
      requires Valid()
      modifies this`out, this`buf
      ensures Valid() && out == old(out) + MapHead(l)
    {
      hide Be;
      if l < 16 {
        WriteCode(0x80 + l);
      } else if l <= 0xffff {
        Write2(MAP16, l);
      } else {
        Write4(MAP32, l);
      }
    }

    method EncodeExtLen(l: nat)
      requires Valid()
      modifies this`out, this`buf
      ensures Valid() && out == old(out) + ExtHead(FixExtLen(l), l)
    {
      hide Be;
      if l == 1 {
        WriteCode(FIXEXT1);
      } else if l == 2 {
        WriteCode(FIXEXT2);
      } else if l == 4 {
        WriteCode(FIXEXT4);
      } else if l == 8 {
        WriteCode(FIXEXT8);
      } else if l == 16 {
        WriteCode(FIXEXT16);
      } else if l <= 0xff {
        Write1(EXT8, l);
      } else if l <= 0xffff {
        Write2(EXT16, l);
      } else {
        Write4(EXT32, l);
      }
    }

    // ---- numbers ----

    /** The shortest form of an unsigned number. */
    method EncodeUint(n: nat)
      requires Valid() && n < TWO64
      modifies this`out, this`buf
      ensures Valid() && W.Valid(Numbers.SmallestUint(n))
      ensures out == old(out) + Emit(Numbers.SmallestUint(n))
    {
      hide Be;
      Numbers.SmallestUintRoundTrip(n, 0);
      if n <= 0x7f {
        WriteCode(n);
      } else if n <= 0xff {
        Write1(UINT8, n);
      } else if n <= 0xffff {
        Write2(UINT16, n);
      } else if n <= 0xffff_ffff {
        Write4(UINT32, n);
      } else {
        Write8(UINT64, n);
      }
    }

    /** The shortest form of a signed number. */
    method EncodeInt(n: int)
      requires Valid() && -TWO63 <= n < TWO63
      modifies this`out, this`buf
      ensures Valid() && W.Valid(Numbers.SmallestInt(n))
      ensures out == old(out) + Emit(Numbers.SmallestInt(n))
    {
      hide Be;
      Numbers.SmallestIntValid(n);
      if n >= 0 {
        EncodeUint(n);
      } else if n >= -32 {
        WriteCode(n % 256);
      } else if n >= -0x80 {
        Write1(INT8, Unsigned(n, 1));
      } else if n >= -0x8000 {
        Write2(INT16, Unsigned(n, 2));
      } else if n >= -0x8000_0000 {
        Write4(INT32, Unsigned(n, 4));
      } else {
        Write8(INT64, Unsigned(n, 8));
      }
    }

    /** A number in the form that keeps its type, or the shortest one when that is allowed. */
    method EncodeSized(w: Wire)
      requires Valid() && W.Valid(w) && (w.WInt? || w.WUint? || w.WFloat?)
      modifies this`out, this`buf
      ensures Valid() && out == old(out) + Emit(SizedForm(w, Settings()))
    {
      hide Be, Pow256, Numbers.SmallestInt, Numbers.SmallestUint, FloatForm;
      NumberRange(w);
      match w {
        case WInt(k, n) =>
          if compactInts {
            EncodeInt(n);
          } else {
            WriteWidth(WidthCode(INT8, k), Unsigned(n, k), k);
          }
        case WUint(k, n) =>
          if compactInts {
            EncodeUint(n);
          } else {
            WriteWidth(WidthCode(UINT8, k), n, k);
          }
        case WFloat(k, bits) =>
          if k == 8 {
            EncodeFloat64(bits);
          } else {
            EncodeFloat32(bits);
          }
      }
    }

    /** A float32, or the integer it converts to if that converts back. */
    method EncodeFloat32(bits: nat)
      requires Valid() && FloatPattern(4, bits)
      modifies this`out, this`buf
      ensures Valid() && W.Valid(FloatForm(Settings(), 4, bits))
      ensures out == old(out) + Emit(FloatForm(Settings(), 4, bits))
    {
      hide Be, Numbers.SmallestInt, CompactFloats.HardwareInt64, CompactFloats.Equal, Rounding.FromInt64;
      FloatFormValid(Settings(), 4, bits);
      if compactFloats {
        var n := CompactFloats.HardwareInt64(Floats.Binary32, bits, convert(Floats.Binary32, bits));
        CompactFloats.HardwareRange(Floats.Binary32, bits, convert(Floats.Binary32, bits));
        if CompactFloats.Equal(Floats.Binary32, Rounding.FromInt64(Floats.Binary32, n), bits) {
          EncodeInt(n);
          return;
        }
      }
      Write4(FLOAT, bits);
    }

    /** The same for a float64. */
    method EncodeFloat64(bits: nat)
      requires Valid() && FloatPattern(8, bits)
      modifies this`out, this`buf
      ensures Valid() && W.Valid(FloatForm(Settings(), 8, bits))
      ensures out == old(out) + Emit(FloatForm(Settings(), 8, bits))
    {
      hide Be, Numbers.SmallestInt, CompactFloats.HardwareInt64, CompactFloats.Equal, Rounding.FromInt64;
      FloatFormValid(Settings(), 8, bits);
      if compactFloats {
        var n := CompactFloats.HardwareInt64(Floats.Binary64, bits, convert(Floats.Binary64, bits));
        CompactFloats.HardwareRange(Floats.Binary64, bits, convert(Floats.Binary64, bits));
        if CompactFloats.Equal(Floats.Binary64, Rounding.FromInt64(Floats.Binary64, n), bits) {
          EncodeInt(n);
          return;
        }
      }
      Write8(DOUBLE, bits);
    }

    method WriteWidth(code: byte, n: nat, k: nat)
      requires Valid() && NumWidth(k)
      modifies this`out, this`buf
      ensures Valid() && out == old(out) + ([code] + Be(n, k))
    {
      hide Be;
      if k == 1 {
        Write1(code, n);
      } else if k == 2 {
        Write2(code, n);
      } else if k == 4 {
        Write4(code, n);
      } else {
        Write8(code, n);
      }
    }

    // ---- strings ----

    method EncodeNormalString(s: bytes)
      requires Valid()
      modifies this`out, this`buf
      ensures Valid() && out == old(out) + (StrHead(|s|) + s)
    {
      hide StrHead;
      EncodeStringLen(|s|);
      Write(s);
    }

    /** A string or map key, by reference when it is known. An index beyond four bytes is an
        error. */
    method EncodeString(s: bytes) returns (ok: bool)
      requires Valid() && |s| < MAX_LEN
      modifies this`out, this`buf, this`dict
      ensures Valid() && (ok <==> s in old(dict) ==> old(dict)[s] < MAX_LEN)
      ensures ok ==> W.Valid(Intern.Sent(old(dict), s)) && out == old(out) + Emit(Intern.Sent(old(dict), s))
      ensures ok ==> dict == Intern.Learn(old(dict), intern, s)
      ensures !ok ==> out == old(out) && dict == old(dict)
    {
      hide Be, Intern.Reference;
      if intern || |dict| > 0 {
        ok := EncodeInternedString(s, intern);
      } else {
        EncodeNormalString(s);
        ok := true;
      }
    }

    method EncodeInternedString(s: bytes, intern: bool) returns (ok: bool)
      requires Valid() && |s| < MAX_LEN
      modifies this`out, this`buf, this`dict
      ensures Valid() && (ok <==> s in old(dict) ==> old(dict)[s] < MAX_LEN)
      ensures ok ==> W.Valid(Intern.Sent(old(dict), s)) && out == old(out) + Emit(Intern.Sent(old(dict), s))
      ensures ok ==> dict == Intern.Learn(old(dict), intern, s)
      ensures !ok ==> out == old(out) && dict == old(dict)
    {
      hide Be, Intern.Reference;
      if s in dict {
        ok := EncodeInternedStringIndex(dict[s]);
        return;
      }
      if intern && |s| >= MIN_INTERNED_LEN && |dict| < MAX_DICT_LEN {
        var idx := |dict|;
        dict := dict[s := idx];
      }
      EncodeNormalString(s);
      return true;
    }

    method EncodeInternedStringIndex(idx: nat) returns (ok: bool)
      requires Valid()
      modifies this`out, this`buf
      ensures Valid() && (ok <==> idx < MAX_LEN)
      ensures ok ==> W.Valid(Intern.Reference(idx)) && out == old(out) + Emit(Intern.Reference(idx))
      ensures !ok ==> out == old(out)
    {
      hide Be;
      if idx < MAX_LEN { Intern.ReferenceData(idx); }
      if idx <= 0xff {
        WriteCode(FIXEXT1);
        Write1(INTERNED_ID % 256, idx);
      } else if idx <= 0xffff {
        WriteCode(FIXEXT2);
        Write2(INTERNED_ID % 256, idx);
      } else if idx <= 0xffff_ffff {
        WriteCode(FIXEXT4);
        Write4(INTERNED_ID % 256, idx);
      } else {
        return false;
      }
      return true;
    }

    method EncodeBytes(s: bytes)
      requires Valid()
      modifies this`out, this`buf
      ensures Valid() && out == old(out) + (BinHead(|s|) + s)
    {
      hide BinHead;
      EncodeBytesLen(|s|);
      Write(s);
    }

    /** A byte array is written as it stands if it can be addressed. Otherwise it goes through the
        staging area, which grows to its size and never shrinks below what the header writers
        need. */
    method EncodeByteArray(s: bytes, addressable: bool)
      requires Valid()
      modifies this`out, this`buf
      ensures Valid() && out == old(out) + (BinHead(|s|) + s)
    {
      hide BinHead;
      EncodeBytesLen(|s|);
      if addressable {
        Write(s);
        return;
      }
      if buf.Cap() >= |s| {
        buf := buf.(len := |s|);
      } else {
        buf := buf.(len := buf.Cap());
        buf := AppendZeros(buf, 0, |s| - buf.len);
      }
      buf := Buffer(s + buf.mem[|s|..], |s|);
      Write(buf.Contents());
    }

    /** Returned to the pool, an encoder keeps a staging area that is large enough, and no
        storage larger than the pool allows. */
    method Recycle()
      requires Valid()
      modifies this`buf, this`appended
      ensures Valid() && buf.Cap() <= 1_048_576 && appended.Cap() <= 1_048_576
      ensures old(buf.Cap()) <= 1_048_576 ==> buf == old(buf)
      ensures old(appended.Cap()) <= 1_048_576 ==> appended == old(appended)
    {
      if buf.Cap() > MAX_POOLED {
        buf := Buffer(Repeat(0, 9), 9);
      }
      if appended.Cap() > MAX_POOLED {
        appended := NilBuffer;
      }
    }

    method EncodeExt(id: int, data: bytes)
      requires Valid() && -128 <= id < 128 && |data| < MAX_LEN
      modifies this`out, this`buf
      ensures Valid() && W.Valid(ExtWire(id, data)) && out == old(out) + Emit(ExtWire(id, data))
    {
      hide ExtHead;
      EncodeExtLen(|data|);
      WriteCode(id % 256);
      Write(data);
    }

    // ---- trees ----

    /** Any value, under any settings: when the dictionary lists d, the output grows by one of
        the wire forms of the value, and the dictionary then lists what that form leaves. */
    method Encode(v: Value, ghost d: Dict) returns (ok: bool, ghost w: Wire)
      requires Valid() && Encodable(v)
      modifies this`out, this`buf, this`dict
      ensures Valid()
      ensures old(Lists(d)) ==>
        ok && Written(Settings(), v, w, d, old(out), out) && Lists(Learned(intern, w, d))
      decreases v, 2
    {
      hide EncodesAll, EncodesEntries, EmitAll, ValidAll, LearnedAll, Written, Encoder.Lists;
      w := WNil;
      match v {
        case VArr(_) =>
          ok, w := EncodeSlice(v, d);
        case VMap(_) =>
          if sortKeys {
            ok, w := EncodeMapSorted(v, d);
          } else {
            ok, w := EncodeMap(v, d);
          }
        case VStr(s) =>
          ok, w := EncodeStringValue(s, d);
        case _ =>
          w := EncodeScalar(v, d);
          ScalarLearns(v, w, intern, d);
          ok := true;
      }
    }

    /** A string as a value. */
    method EncodeStringValue(s: bytes, ghost d: Dict) returns (ok: bool, ghost w: Wire)
      requires Valid() && |s| < MAX_LEN
      modifies this`out, this`buf, this`dict
      ensures Valid() && w == SentBy(d, s)
      ensures old(Lists(d)) ==>
        ok && Written(Settings(), VStr(s), w, d, old(out), out) && Lists(Learned(intern, w, d))
    {
      hide SentBy, Intern.Inverse, Intern.Sent, Intern.Learn, Learned, Emit, W.Valid;
      w := SentBy(d, s);
      if Lists(d) { StringStep(dict, d, intern, s); }
      ok := EncodeString(s);
    }

    /** Everything that is neither a string nor a container. */
    method EncodeScalar(v: Value, ghost d: Dict) returns (ghost w: Wire)
      requires Valid() && Encodable(v) && !v.VStr? && !v.VArr? && !v.VMap?
      modifies this`out, this`buf
      ensures Valid() && Written(Settings(), v, w, d, old(out), out)
      ensures !w.WStr? && !w.WArr? && !w.WMap?
    {
      hide Be, Time.Pack, StrHead, BinHead, ExtHead, FloatForm,
        Numbers.SmallestInt, Numbers.SmallestUint, EncodesAll, EncodesEntries, EmitAll, ValidAll,
        Unsigned, Pow256, ArrHead, MapHead;
      w := WNil;
      match v {
        case VNil =>
          WriteCode(NIL);
        case VBool(b) =>
          w := WBool(b);
          WriteCode(if b then TRUE else FALSE);
        case VInt(k, n) =>
          SizedRange(v);
          w := if compactInts then Numbers.SmallestInt(n) else WInt(k, n);
          EncodeSized(WInt(k, n));
        case VUint(k, n) =>
          SizedRange(v);
          w := if compactInts then Numbers.SmallestUint(n) else WUint(k, n);
          EncodeSized(WUint(k, n));
        case VFloat(k, bits) =>
          SizedRange(v);
          w := FloatForm(Settings(), k, bits);
          EncodeSized(WFloat(k, bits));
        case VBin(s) =>
          w := WBin(s);
          EncodeBytes(s);
        case VTime(t) =>
          Time.PackLength(t);
          w := ExtWire(Time.TIME_ID, Time.Pack(t));
          EncodeExt(Time.TIME_ID, Time.Pack(t));
        case VExt(id, data) =>
          w := ExtWire(id, data);
          EncodeExt(id, data);
      }
      FormKind(Settings(), v, w, d);
    }

    method EncodeSlice(v: Value, ghost d: Dict) returns (ok: bool, ghost w: Wire)
      requires Valid() && Encodable(v) && v.VArr?
      modifies this`out, this`buf, this`dict
      ensures Valid()
      ensures old(Lists(d)) ==>
        ok && Written(Settings(), v, w, d, old(out), out) && Lists(Learned(intern, w, d))
      decreases v, 0
    {
      hide Encodes, Emit, W.Valid, ArrHead, Learned, LearnedAll, EncodesAll, CompletesItems, Encoder.Lists;
      w := WNil;
      var n := |v.items|;
      EncodeArrayLen(n);
      ghost var o, done, start := Settings(), [], out;
      NothingDone(o, v.items, d);
      var i := 0;
      while i < n
        invariant 0 <= i <= n && Valid() && Settings() == o
        invariant old(Lists(d)) ==>
          ItemsProgress(o, v.items, d, done, i, start, out) && Lists(LearnedAll(o.intern, done, d))
      {
        ghost var before := out;
        ghost var x;
        ok, x := Encode(v.items[i], LearnedAll(o.intern, done, d));
        if !ok {
          return;
        }
        if old(Lists(d)) {
          ItemWritten(o, v.items, d, done, i, start, before, x);
          done := done + [x];
        }
        i := i + 1;
      }
      ok, w := true, WArr(done);
      if old(Lists(d)) { ItemsEnd(o, v, d, done, old(out), start, out); }
    }

    /** A key and its value. */
    method EncodePair(v: Value, k: bytes, ghost e: Dict) returns (ok: bool, ghost x: Wire)
      requires Valid() && v.VMap? && k in v.m && |k| < MAX_LEN && Encodable(v.m[k])
      modifies this`out, this`buf, this`dict
      ensures Valid()
      ensures old(Lists(e)) ==>
        ok && PairWritten(Settings(), v.m[k], k, x, e, old(out), out)
        && Lists(Learned(intern, x, Learned(intern, SentBy(e, k), e)))
      decreases v, 0
    {
      hide Encodes, Emit, W.Valid, SentBy, Learned, Encoder.Lists;
      ghost var kw;
      ok, kw := EncodeStringValue(k, e);
      x := WNil;
      if !ok {
        return;
      }
      ok, x := Encode(v.m[k], Learned(intern, kw, e));
    }

    /** A map in whatever order the runtime hands out its keys. */
    method EncodeMap(v: Value, ghost d: Dict) returns (ok: bool, ghost w: Wire)
      requires Valid() && Encodable(v) && v.VMap?
      modifies this`out, this`buf, this`dict
      ensures Valid()
      ensures old(Lists(d)) ==>
        ok && Written(Settings().(sorted := false), v, w, d, old(out), out) && Lists(Learned(intern, w, d))
      decreases v, 1
    {
      hide Encodable, Encodes, Emit, W.Valid, MapHead, Progress, IsLeast, Learned, LearnedAll,
        Encoder.Lists, PairWritten,
        SentBy, Written, Inverse;
      w := WNil;
      EncodeMapLen(|v.m|);
      ghost var o, done, start := Settings().(sorted := false), [], out;
      var rest := v.m;
      ProgressStart(o, v.m, d, out);
      while rest != map[]
        invariant Valid() && Settings().(sorted := false) == o
        invariant forall k :: k in rest ==> k in v.m && rest[k] == v.m[k]
        invariant old(Lists(d)) ==> Progress(o, v.m, d, done, rest, start, out) && Lists(LearnedAll(o.intern, done, d))
        decreases |rest|
      {
        var k :| k in rest;
        EncodableEntry(v, k);
        ghost var before, e := out, LearnedAll(o.intern, done, d);
        ghost var x;
        ok, x := EncodePair(v, k, e);
        if !ok {
          return;
        }
        if old(Lists(d)) {
          PairUnsorted(Settings(), v.m[k], k, x, e, before, out);
          ProgressStep(o, v.m, d, done, rest, start, before, out, k, x);
          done := done + [SentBy(e, k), x];
        }
        rest := rest - {k};
      }
      assert rest == map[];
      ok, w := true, WMap(done);
      if old(Lists(d)) { ProgressEnd(o, v, d, done, old(out), start, out); }
    }

    /** A map in ascending key order. */
    method EncodeMapSorted(v: Value, ghost d: Dict) returns (ok: bool, ghost w: Wire)
      requires Valid() && Encodable(v) && v.VMap?
      modifies this`out, this`buf, this`dict
      ensures Valid()
      ensures old(Lists(d)) ==>
        ok && Written(Settings(), v, w, d, old(out), out) && Lists(Learned(intern, w, d))
      decreases v, 1
    {
      hide Encodable, Encodes, Emit, W.Valid, MapHead, Progress, IsLeast, Ascending,
        NeighboursInOrder, Learned, LearnedAll,
        Encoder.Lists,
        PairWritten, SentBy, Written, Inverse;
      w := WNil;
      EncodeMapLen(|v.m|);
      var keys := SortedKeys(v.m);
      ghost var o, done, start := Settings(), [], out;
      ghost var rest := v.m;
      ProgressStart(o, v.m, d, out);
      var i := 0;
      while i < |keys|
        invariant 0 <= i <= |keys| && Valid() && Settings() == o
        invariant forall k :: k in rest <==> k in keys[i..]
        invariant forall k :: k in rest ==> k in v.m && rest[k] == v.m[k]
        invariant old(Lists(d)) ==> Progress(o, v.m, d, done, rest, start, out) && Lists(LearnedAll(o.intern, done, d))
      {
        var k := keys[i];
        KeyIsLeast(keys, i, rest);
        EncodableEntry(v, k);
        ghost var before, e := out, LearnedAll(o.intern, done, d);
        ghost var x;
        ok, x := EncodePair(v, k, e);
        if !ok {
          return;
        }
        if old(Lists(d)) {
          ProgressStep(o, v.m, d, done, rest, start, before, out, k, x);
          done := done + [SentBy(e, k), x];
        }
        rest := rest - {k};
        i := i + 1;
      }
      assert rest == map[];
      ok, w := true, WMap(done);
      if old(Lists(d)) { ProgressEnd(o, v, d, done, old(out), start, out); }
    }

    /** Encodes into the storage of dst, from its front, and leaves the writer in place
        untouched. */
    method Append(dst: Buffer<byte>, v: Value, ghost d: Dict) returns (ok: bool, r: bytes, ghost w: Wire)
      requires Valid() && Encodable(v) && dst.Valid()
      modifies this`out, this`buf, this`dict, this`appended
      ensures Valid() && out == old(out)
      ensures ok ==> appended.Buffer? && appended.Contents() == r
      ensures old(Lists(d)) ==>
        ok && Written(Settings(), v, w, d, [], r) && Lists(Learned(intern, w, d))
    {
      hide Written, Learned, Encoder.Lists;
      var saved := out;
      out := [];
      ok, w := Encode(v, d);
      r := out;
      out := saved;
      appended := Buffer(r + dst.SpareAfter(|r|), |r|);
      assert appended.mem[..|r|] == r;
      if !ok {
        r := [];
      }
    }
  }

  // ---- steps of the loops above ----

  /** w is a form of v, and the output grew by its bytes. */
  ghost predicate Written(o: Options, v: Value, w: Wire, d: Dict, before: bytes, after: bytes) {
    Encodes(o, v, w, d) && W.Valid(w) && after == before + Emit(w)
  }

  ghost predicate PairWritten(o: Options, v: Value, k: bytes, x: Wire, e: Dict, before: bytes, after: bytes) {
    && Encodes(o, v, x, Learned(o.intern, SentBy(e, k), e)) && W.Valid(SentBy(e, k)) && W.Valid(x)
    && after == before + Emit(SentBy(e, k)) + Emit(x)
  }

  lemma PairUnsorted(o: Options, v: Value, k: bytes, x: Wire, e: Dict, before: bytes, after: bytes)
    requires PairWritten(o, v, k, x, e, before, after)
    ensures PairWritten(o.(sorted := false), v, k, x, e, before, after)
  {
    hide Encodes, SentBy, Emit, W.Valid, Learned;
    SortedIsAny(o, v, x, Learned(o.intern, SentBy(e, k), e));
  }

  lemma ScalarLearns(v: Value, w: Wire, intern: bool, d: Dict)
    requires !w.WStr? && !w.WArr? && !w.WMap?
    ensures Learned(intern, w, d) == d
  {}

  /** A string moves the map and the list alike. */
  lemma StringStep(enc: Intern.EncDict, d: Dict, intern: bool, s: bytes)
    requires Intern.Inverse(enc, d) && |d| <= MAX_LEN
    ensures Intern.Sent(enc, s) == SentBy(d, s) && (s in enc ==> enc[s] < MAX_LEN)
    ensures Intern.Inverse(Intern.Learn(enc, intern, s), Learned(intern, SentBy(d, s), d))
    ensures |Learned(intern, SentBy(d, s), d)| <= MAX_LEN
  {
    hide Be;
    Intern.ListStep(enc, d, intern, s);
    LearnedSmall(intern, SentBy(d, s), d);
  }

  lemma NothingDone(o: Options, vs: seq<Value>, d: Dict)
    ensures CompletesItems(o, vs, d, [], 0) && ValidAll([]) && EmitAll([]) == [] && LearnedAll(o.intern, [], d) == d
  {
    hide EncodesAll;
    assert vs[0..] == vs;
    assert forall tail: seq<Wire> :: [] + tail == tail;
  }

  /** Between elements: what is in the output since start, and that the rest completes it. */
  ghost predicate ItemsProgress(o: Options, vs: seq<Value>, d: Dict, done: seq<Wire>, i: int,
      start: bytes, out: bytes) {
    && 0 <= i <= |vs| && |done| == i && ValidAll(done) && out == start + EmitAll(done)
    && CompletesItems(o, vs, d, done, i)
  }

  lemma ItemWritten(o: Options, vs: seq<Value>, d: Dict, done: seq<Wire>, i: nat, start: bytes,
      before: bytes, x: Wire)
    requires ItemsProgress(o, vs, d, done, i, start, before) && i < |vs|
    requires Encodes(o, vs[i], x, LearnedAll(o.intern, done, d)) && W.Valid(x)
    ensures ItemsProgress(o, vs, d, done + [x], i + 1, start, before + Emit(x))
    ensures LearnedAll(o.intern, done + [x], d) == Learned(o.intern, x, LearnedAll(o.intern, done, d))
  {
    hide Encodes, EmitAll, ValidAll, CompletesItems, Emit, W.Valid, LearnedAll, Learned;
    EmitAppend(done, x);
    CompletesItemsStep(o, vs, d, done, i, x);
  }

  lemma ItemsEnd(o: Options, v: Value, d: Dict, done: seq<Wire>, before: bytes, start: bytes, out: bytes)
    requires v.VArr? && Encodable(v) && ItemsProgress(o, v.items, d, done, |v.items|, start, out)
    requires start == before + ArrHead(|v.items|) && |d| <= MAX_LEN
    ensures Written(o, v, WArr(done), d, before, out)
    ensures Learned(o.intern, WArr(done), d) == LearnedAll(o.intern, done, d)
  {
    hide EmitAll, ArrHead, EncodesAll, ValidAll, LearnedAll, CompletesItems, StrHead, BinHead, MapHead, Be;
    CompletesItemsAll(o, v.items, d, done);
    EncodesValid(o, v, WArr(done), d);
    assert Emit(WArr(done)) == ArrHead(|done|) + EmitAll(done);
  }

  /** Between entries: what is in the output since start, and that the rest completes it. */
  ghost predicate Progress(o: Options, m: map<bytes, Value>, d: Dict, done: seq<Wire>, rest: map<bytes, Value>,
                           start: bytes, out: bytes)
  {
    ValidAll(done) && out == start + EmitAll(done) && Completes(o, m, d, done, rest)
  }

  lemma ProgressStart(o: Options, m: map<bytes, Value>, d: Dict, out: bytes)
    ensures Progress(o, m, d, [], m, out, out) && LearnedAll(o.intern, [], d) == d
  {
    hide EncodesEntries;
    assert forall tail: seq<Wire> :: [] + tail == tail;
  }

  lemma ProgressStep(o: Options, m: map<bytes, Value>, d: Dict, done: seq<Wire>, rest: map<bytes, Value>,
                     start: bytes, before: bytes, out: bytes, k: bytes, x: Wire)
    requires Progress(o, m, d, done, rest, start, before) && |LearnedAll(o.intern, done, d)| <= MAX_LEN
    requires k in rest && (o.sorted ==> IsLeast(k, rest))
    requires PairWritten(o, rest[k], k, x, LearnedAll(o.intern, done, d), before, out)
    ensures var kw := SentBy(LearnedAll(o.intern, done, d), k);
      && Progress(o, m, d, done + [kw, x], rest - {k}, start, out)
      && LearnedAll(o.intern, done + [kw, x], d)
         == Learned(o.intern, x, Learned(o.intern, kw, LearnedAll(o.intern, done, d)))
  {
    hide Encodes, EmitAll, ValidAll, Completes, IsLeast, Emit, W.Valid, SentBy, Learned, LearnedAll;
    var kw := SentBy(LearnedAll(o.intern, done, d), k);
    EmitAppend(done, kw);
    EmitAppend(done + [kw], x);
    assert done + [kw] + [x] == done + [kw, x];
    CompletesStep(o, m, d, done, rest, k, x);
    LearnedPair(o.intern, done, kw, x, d);
  }

  lemma ProgressEnd(o: Options, v: Value, d: Dict, done: seq<Wire>, before: bytes, start: bytes, out: bytes)
    requires v.VMap? && Encodable(v) && Progress(o, v.m, d, done, map[], start, out)
    requires start == before + MapHead(|v.m|) && |d| <= MAX_LEN
    ensures Written(o, v, WMap(done), d, before, out)
    ensures Learned(o.intern, WMap(done), d) == LearnedAll(o.intern, done, d)
  {
    hide Emit, EmitAll, MapHead, Completes, Encodes, EncodesEntries, W.Valid, ValidAll, Encodable, Learned, LearnedAll;
    CompletesAll(o, v.m, d, done);
    MapForm(o, v, done, d);
    EncodesValid(o, v, WMap(done), d);
    MapFormSize(o, v, done, d);
    MapBytes(done);
  }

  lemma MapForm(o: Options, v: Value, ws: seq<Wire>, d: Dict)
    requires v.VMap? && EncodesEntries(o, v.m, ws, d)
    ensures Encodes(o, v, WMap(ws), d) && Learned(o.intern, WMap(ws), d) == LearnedAll(o.intern, ws, d)
  {
    hide EncodesEntries, LearnedAll;
  }

  lemma MapFormSize(o: Options, v: Value, ws: seq<Wire>, d: Dict)
    requires v.VMap? && Encodable(v) && EncodesEntries(o, v.m, ws, d) && |d| <= MAX_LEN
    ensures |ws| == 2 * |v.m|
  {
    hide EncodesEntries, Pow256;
    EncodesEntriesValid(o, v.m, ws, d);
  }

  lemma MapBytes(ws: seq<Wire>)
    requires W.Valid(WMap(ws))
    ensures ValidAll(ws) && Emit(WMap(ws)) == MapHead(|ws| / 2) + EmitAll(ws)
  {
    hide EmitAll, MapHead, ValidAll;
  }

  lemma EncodableEntry(v: Value, k: bytes)
    requires v.VMap? && Encodable(v) && k in v.m
    ensures |k| < MAX_LEN && Encodable(v.m[k])
  {}

  lemma KeyIsLeast(keys: seq<bytes>, i: nat, rest: map<bytes, Value>)
    requires Ascending(keys) && i < |keys|
    requires forall k :: k in rest <==> k in keys[i..]
    ensures IsLeast(keys[i], rest)
    ensures forall k :: k in rest && k != keys[i] <==> k in keys[i + 1..]
  {
    hide Le;
    LeTotal(keys[i], keys[i]);
    assert keys[i..] == [keys[i]] + keys[i + 1..];
    assert keys[i] !in keys[i + 1..];
  }
}
