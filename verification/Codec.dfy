/**
 The results about whole values: the round trip under every setting of the encoder and the
 decoder, with its exact conditions, and what holds of every input: prefixes are refused,
 extensions change nothing, the guards only hasten, skipping and decoding stay together.
 */
module Codec {
  import opened Bytes
  import opened Buffers
  import opened Codes
  import opened Wire
  import opened Bounds
  import opened Value
  import opened Intern
  import opened Forms
  import opened Reading
  import Numbers
  import Time

  // ---- limits, read off the value ----

  /** The value nests at most room levels deep and holds no container longer than cap. */
  ghost predicate Within(v: Value, room: int, cap: nat)
    decreases v
  {
    && room >= 1
    && match v
       case VArr(vs) => |vs| <= cap && forall i :: 0 <= i < |vs| ==> Within(vs[i], room - 1, cap)
       case VMap(m) => |m| <= cap && forall k :: k in m ==> Within(m[k], room - 1, cap)
       case _ => true
  }

  /** Every form of a value has the nesting and the container lengths of the value. */
  lemma {:induction false} FitsIsWithin(o: Options, v: Value, w: Wire, d: Dict, room: int, cap: nat)
    requires Encodes(o, v, w, d)
    ensures Fits(w, room, cap) <==> Within(v, room, cap)
    decreases w, 0
  {
    hide EncodesAll, EncodesEntries, HeightAll, WidthAll, FloatForm, Numbers.SmallestInt, Numbers.SmallestUint, Be,
      Time.Pack;
    FormKind(o, v, w, d);
    match v
    case VArr(vs) => AllFitIsWithin(o, vs, w.items, d, room - 1, cap);
    case VMap(m) => EntriesFitIsWithin(o, m, w.entries, d, room - 1, cap);
    case _ =>
  }

  lemma {:induction false} AllFitIsWithin(o: Options, vs: seq<Value>, ws: seq<Wire>, d: Dict, room: int, cap: nat)
    requires EncodesAll(o, vs, ws, d)
    ensures |ws| == |vs|
    ensures FitsAll(ws, room, cap) <==> room >= 0 && forall i :: 0 <= i < |vs| ==> Within(vs[i], room, cap)
    decreases ws, 1
  {
    hide Encodes, Learned, Within, Height, Width;
    if ws == [] {
    } else {
      FitsIsWithin(o, vs[0], ws[0], d, room, cap);
      AllFitIsWithin(o, vs[1..], ws[1..], Learned(o.intern, ws[0], d), room, cap);
      assert vs == [vs[0]] + vs[1..];
    }
  }

  lemma {:induction false} EntriesFitIsWithin(o: Options, m: map<bytes, Value>, ws: seq<Wire>, d: Dict,
      room: int, cap: nat)
    requires EncodesEntries(o, m, ws, d)
    ensures |ws| == 2 * |m|
    ensures FitsAll(ws, room, cap) <==> room >= 0 && forall k :: k in m ==> Within(m[k], room, cap)
    decreases ws, 1
  {
    hide Encodes, Learned, Within, Height, Width, SentBy, KeyOf, IsLeast;
    if ws == [] {
    } else {
      var k, d1 := KeyOf(ws[0], d), Learned(o.intern, ws[0], d);
      var rest := m - {k};
      FitsIsWithin(o, m[k], ws[1], d1, room, cap);
      EntriesFitIsWithin(o, rest, ws[2..], Learned(o.intern, ws[1], d1), room, cap);
      assert m == rest[k := m[k]];
      KeyFits(d, k);
      WithinRoom(m[k], room, cap);
      assert ws[1..][1..] == ws[2..] && ws[1..][0] == ws[1];
      assert HeightAll(ws[1..]) == Max(Height(ws[1]), HeightAll(ws[2..]));
      assert WidthAll(ws[1..]) == Max(Width(ws[1]), WidthAll(ws[2..]));
    }
  }

  lemma KeyFits(d: Dict, k: bytes)
    ensures Height(SentBy(d, k)) == 1 && Width(SentBy(d, k)) == 0
  {
    hide Be;
  }

  lemma WithinRoom(v: Value, room: int, cap: nat)
    ensures Within(v, room, cap) ==> room >= 1
  {}

  // ---- reading back ----

  lemma {:induction false} AlikeItself(v: Value)
    ensures Alike(v, v)
    decreases v
  {
    match v
    case VArr(vs) => forall i | 0 <= i < |vs| ensures Alike(vs[i], vs[i]) { AlikeItself(vs[i]); }
    case VMap(m) => forall k | k in m ensures Alike(m[k], m[k]) { AlikeItself(m[k]); }
    case _ =>
  }

  lemma {:induction false} TypesHold(o: Options, v: Value)
    requires !o.compactFloats
    ensures FloatsHold(o, v)
    decreases v
  {
    match v
    case VArr(vs) => forall i | 0 <= i < |vs| ensures FloatsHold(o, vs[i]) { TypesHold(o, vs[i]); }
    case VMap(m) => forall k | k in m ensures FloatsHold(o, m[k]) { TypesHold(o, m[k]); }
    case _ =>
  }

  /** A tree read in the interning mode it was written in, from the same dictionary, comes back up
      to the types of its numbers exactly when every reference in it is safe and no float of it
      reverts; and comes back itself, where types are kept and the reading is strict, exactly
      when every reference is safe. */
  lemma ReadBack(mode: Mode, o: Options, v: Value, w: Wire, d: Dict)
    requires mode.intern == o.intern && |d| <= MAX_LEN && Encodable(v) && ExtsKnown(mode, v) && Encodes(o, v, w, d)
    ensures var r, safe := Interp(mode, w, d), Safe(o.intern, w, d, None);
      && (safe ==> r.Got?)
      && (r.Got? && Alike(v, r.val) <==> safe && FloatsHold(o, v))
      && (!mode.loose && KeepsTypes(o) ==> (r.Got? && r.val == v <==> safe))
  {
    hide Encodes, Encodable, ExtsKnown, Interp, Safe, Alike, FloatsHold;
    Reads(mode, o, v, w, d, d, None);
    AlikeItself(v);
    if KeepsTypes(o) { TypesHold(o, v); }
  }

  /** A tree is decoded and both dictionaries agree afterwards exactly when it taught the encoder
      no string value. */
  lemma DictionariesAgree(mode: Mode, o: Options, v: Value, w: Wire, d: Dict)
    requires mode.intern == o.intern && |d| <= MAX_LEN && Encodable(v) && ExtsKnown(mode, v) && Encodes(o, v, w, d)
    ensures Interp(mode, w, d).Got? && Interp(mode, w, d).dict == Learned(o.intern, w, d)
      <==> Steady(o.intern, w, d)
  {
    hide Encodes, Encodable, ExtsKnown, Interp, Safe, Alike, FloatsHold, Learned, Lost;
    ReadBack(mode, o, v, w, d);
    Tracks(mode, o, v, w, d, d, None);
    if Steady(o.intern, w, d) { SteadyIsSafe(o.intern, w, d); }
  }

  /** After a tree that was decoded, every string sent next arrives exactly when the tree taught
      the encoder no string value. */
  lemma LaterStrings(mode: Mode, o: Options, v: Value, w: Wire, d: Dict)
    requires mode.intern == o.intern && |d| <= MAX_LEN && Encodable(v) && Encodes(o, v, w, d)
    requires Interp(mode, w, d).Got?
    ensures (forall s: bytes :: Arrives(o.intern, Learned(o.intern, w, d), Interp(mode, w, d).dict, s))
      <==> Steady(o.intern, w, d)
  {
    hide Encodes, Encodable, Interp, Learned, Lost, Arrives;
    Tracks(mode, o, v, w, d, d, None);
    LearnedSmall(o.intern, w, d);
    ArriveExactly(o.intern, Learned(o.intern, w, d), Interp(mode, w, d).dict, Lost(o.intern, w, d, None));
  }

  /** A skipped tree teaches the decoder nothing. Every string sent next arrives exactly when it
      taught the encoder nothing either, neither a key nor a value. */
  lemma SkippedTree(o: Options, v: Value, w: Wire, d: Dict)
    requires |d| <= MAX_LEN && Encodes(o, v, w, d)
    ensures (forall s: bytes :: Arrives(o.intern, Learned(o.intern, w, d), d, s))
      <==> Learned(o.intern, w, d) == d
  {
    hide Encodes, Learned, Arrives;
    var e := Learned(o.intern, w, d);
    LearnsNew(o, v, w, d);
    LearnedSmall(o.intern, w, d);
    ArriveExactly(o.intern, e, d, if e == d then None else Some(|d|));
  }

  /** Beyond that point a key may be read as another one, with no error: after a string value s
      learned by the encoder alone, the key t is read as the key u that was learned after it. */
  lemma WrongKey(mode: Mode, o: Options, s: bytes, t: bytes, u: bytes, d: Dict)
    requires mode.intern && o.intern && |d| + 2 < MAX_DICT_LEN
    requires s != t && s != u && t != u && s !in d && t !in d && u !in d
    requires |s| >= MIN_INTERNED_LEN && |t| >= MIN_INTERNED_LEN && |u| >= MIN_INTERNED_LEN
    ensures var w := WArr([WStr(s), OneKey(WStr(t)), OneKey(WStr(u)), OneKey(Reference(|d| + 1))]);
      && Encodes(o, VArr([VStr(s), Keyed(t), Keyed(u), Keyed(t)]), w, d)
      && Interp(mode, w, d) == Got(VArr([VStr(s), Keyed(t), Keyed(u), Keyed(u)]), d + [t, u])
  {
    hide Reference, Encodes, Interp, OneKey, Keyed;
    var w1, w2, w3 := OneKey(WStr(t)), OneKey(WStr(u)), OneKey(Reference(|d| + 1));
    var e1, e2, e3, d1, d2 := d + [s], d + [s, t], d + [s, t, u], d + [t], d + [t, u];
    NewKey(mode, o, t, e1, e2);
    NewKey(mode, o, u, e2, e3);
    NewKey(mode, o, t, d, d1);
    NewKey(mode, o, u, d1, d2);
    OldKey(mode, o, t, |d| + 1, e3, d2);
    FirstString(mode, o, s, d);
    FormOfFour(o, VStr(s), Keyed(t), Keyed(u), Keyed(t), WStr(s), w1, w2, w3, d, e1, e2, e3);
    ReadFour(mode, WStr(s), w1, w2, w3, VStr(s), Keyed(t), Keyed(u), Keyed(u), d, d, d1, d2, d2);
  }

  lemma FormOfFour(o: Options, v0: Value, v1: Value, v2: Value, v3: Value, w0: Wire, w1: Wire, w2: Wire, w3: Wire,
                   d: Dict, e1: Dict, e2: Dict, e3: Dict)
    requires Encodes(o, v0, w0, d) && Learned(o.intern, w0, d) == e1
    requires Encodes(o, v1, w1, e1) && Learned(o.intern, w1, e1) == e2
    requires Encodes(o, v2, w2, e2) && Learned(o.intern, w2, e2) == e3
    requires Encodes(o, v3, w3, e3)
    ensures Encodes(o, VArr([v0, v1, v2, v3]), WArr([w0, w1, w2, w3]), d)
  {
    hide Encodes, EncodesAll, Learned;
    FormsOfNone(o, Learned(o.intern, w3, e3));
    Row(v0, v1, v2, v3);
    Row(w0, w1, w2, w3);
    FormsCons(o, v3, [], w3, [], e3);
    FormsCons(o, v2, [v3], w2, [w3], e2);
    FormsCons(o, v1, [v2, v3], w1, [w2, w3], e1);
    FormsCons(o, v0, [v1, v2, v3], w0, [w1, w2, w3], d);
    FormOfArray(o, [v0, v1, v2, v3], [w0, w1, w2, w3], d);
  }

  lemma ReadFour(mode: Mode, w0: Wire, w1: Wire, w2: Wire, w3: Wire, u0: Value, u1: Value, u2: Value, u3: Value,
                 d0: Dict, d1: Dict, d2: Dict, d3: Dict, d4: Dict)
    requires Interp(mode, w0, d0) == Got(u0, d1) && Interp(mode, w1, d1) == Got(u1, d2)
    requires Interp(mode, w2, d2) == Got(u2, d3) && Interp(mode, w3, d3) == Got(u3, d4)
    ensures Interp(mode, WArr([w0, w1, w2, w3]), d0) == Got(VArr([u0, u1, u2, u3]), d4)
  {
    hide Interp, InterpAll;
    ReadNone(mode, d4);
    Row(w0, w1, w2, w3);
    Row(u0, u1, u2, u3);
    InterpCons(mode, w3, [], d3);
    InterpCons(mode, w2, [w3], d2);
    InterpCons(mode, w1, [w2, w3], d1);
    InterpCons(mode, w0, [w1, w2, w3], d0);
    ReadArray(mode, [w0, w1, w2, w3], d0);
  }

  lemma Row<T>(a: T, b: T, c: T, d: T)
    ensures [d] + [] == [d] && [c] + [d] == [c, d] && [b] + [c, d] == [b, c, d] && [a] + [b, c, d] == [a, b, c, d]
  {}

  lemma FirstString(mode: Mode, o: Options, s: bytes, d: Dict)
    requires s !in d && |s| >= MIN_INTERNED_LEN && |d| < MAX_DICT_LEN
    ensures Encodes(o, VStr(s), WStr(s), d) && Learned(true, WStr(s), d) == d + [s]
    ensures Interp(mode, WStr(s), d) == Got(VStr(s), d)
  {}

  lemma FormsOfNone(o: Options, e: Dict)
    ensures EncodesAll(o, [], [], e)
  {}

  lemma ReadNone(mode: Mode, d: Dict)
    ensures InterpAll(mode, [], d) == Got([], d)
  {}

  lemma FormsCons(o: Options, v: Value, vs: seq<Value>, w: Wire, ws: seq<Wire>, d: Dict)
    requires Encodes(o, v, w, d) && EncodesAll(o, vs, ws, Learned(o.intern, w, d))
    ensures EncodesAll(o, [v] + vs, [w] + ws, d)
  {
    hide Encodes, Learned;
    assert ([v] + vs)[1..] == vs && ([w] + ws)[1..] == ws;
  }

  lemma InterpCons(mode: Mode, w: Wire, ws: seq<Wire>, d: Dict)
    requires Interp(mode, w, d).Got? && InterpAll(mode, ws, Interp(mode, w, d).dict).Got?
    ensures var rest := InterpAll(mode, ws, Interp(mode, w, d).dict);
      InterpAll(mode, [w] + ws, d) == Got([Interp(mode, w, d).val] + rest.val, rest.dict)
  {
    hide Interp;
    assert ([w] + ws)[1..] == ws;
  }

  lemma FormOfArray(o: Options, vs: seq<Value>, ws: seq<Wire>, d: Dict)
    requires EncodesAll(o, vs, ws, d)
    ensures Encodes(o, VArr(vs), WArr(ws), d)
  {}

  lemma ReadArray(mode: Mode, ws: seq<Wire>, d: Dict)
    requires InterpAll(mode, ws, d).Got?
    ensures Interp(mode, WArr(ws), d) == Got(VArr(InterpAll(mode, ws, d).val), InterpAll(mode, ws, d).dict)
  {}

  function OneKey(k: Wire): Wire { WMap([k, WNil]) }

  function Keyed(k: bytes): Value { VMap(map[k := VNil]) }

  lemma {:induction false} OneEntryForm(o: Options, k: bytes, kw: Wire, d: Dict)
    requires kw == SentBy(d, k) && KeyOf(kw, d) == k
    ensures Encodes(o, Keyed(k), OneKey(kw), d)
    ensures Learned(o.intern, OneKey(kw), d) == Learned(o.intern, kw, d)
  {
    hide SentBy, KeyOf, Le;
    LeTotal(k, k);
    var m := map[k := VNil];
    assert m - {k} == map[] && m[k] == VNil;
    var d1 := Learned(o.intern, kw, d);
    assert [kw, WNil][1..] == [WNil] && [kw, WNil][2..] == [] && [WNil][1..] == [];
    assert Encodes(o, VNil, WNil, d1) && Learned(o.intern, WNil, d1) == d1;
    assert EncodesEntries(o, map[], [], d1);
    assert EncodesEntries(o, m, [kw, WNil], d);
    assert LearnedAll(o.intern, [WNil], d1) == LearnedAll(o.intern, [], d1);
    assert LearnedAll(o.intern, [kw, WNil], d) == d1;
  }

  lemma {:induction false} OneEntryRead(mode: Mode, k: bytes, kw: Wire, d: Dict, d': Dict)
    requires StringOf(mode.intern, kw, d) == Got(k, d')
    ensures Interp(mode, OneKey(kw), d) == Got(Keyed(k), d')
  {
    hide StringOf;
    assert [kw, WNil][2..] == [];
    assert InterpEntries(mode, [], d') == Got(map[], d') && Interp(mode, WNil, d') == Got(VNil, d');
    assert InterpEntries(mode, [kw, WNil], d) == Put(k, VNil, InterpEntries(mode, [], d'));
    assert map[k := VNil] + map[] == map[k := VNil];
  }

  lemma NewKey(mode: Mode, o: Options, k: bytes, d: Dict, d': Dict)
    requires mode.intern && o.intern && k !in d && |k| >= MIN_INTERNED_LEN && |d| < MAX_DICT_LEN && d' == d + [k]
    ensures Encodes(o, Keyed(k), OneKey(WStr(k)), d)
    ensures Learned(true, OneKey(WStr(k)), d) == d'
    ensures Interp(mode, OneKey(WStr(k)), d) == Got(Keyed(k), d')
  {
    hide Encodes, Interp;
    OneEntryForm(o, k, WStr(k), d);
    OneEntryRead(mode, k, WStr(k), d, d');
  }

  lemma OldKey(mode: Mode, o: Options, k: bytes, idx: nat, e: Dict, d: Dict)
    requires idx < |e| <= MAX_LEN && idx < |d| && e[idx] == k && forall j :: 0 <= j < idx ==> e[j] != k
    ensures Encodes(o, Keyed(k), OneKey(Reference(idx)), e)
    ensures Interp(mode, OneKey(Reference(idx)), d) == Got(Keyed(d[idx]), d)
  {
    hide Reference, Encodes, Interp;
    FirstIndex(e, k, idx);
    ReferenceRead(false, idx, e);
    ReferenceRead(mode.intern, idx, d);
    OneEntryForm(o, k, Reference(idx), e);
    OneEntryRead(mode, d[idx], Reference(idx), d, d);
  }

  // ---- main results ----

  /** Round trip. Under any settings of the encoder, read in any mode that interns as it did and
      from the same dictionary, whatever precedes and follows the bytes: a numerically equal tree
      is decoded if and only if the value is within the decoder's limits, every reference in its
      form is safe, and no float of it reverts; where types are kept and the reading is strict,
      the value itself is decoded if and only if it is within the limits and every reference is
      safe. Whatever is decoded ends exactly behind the bytes, and the dictionary is then the
      encoder's if no string value was learned. */
  lemma {:induction false} RoundTrip(mode: Mode, o: Options, v: Value, w: Wire, before: bytes, after: bytes,
      lim: Limits, d: Dict)
    requires mode.intern == o.intern && |d| <= MAX_LEN && Encodable(v) && ExtsKnown(mode, v) && Encodes(o, v, w, d)
    ensures Valid(w)
    ensures var r, safe := DecodeAt(mode, before + Emit(w) + after, |before|, lim, d), Safe(o.intern, w, d, None);
      && (r.Done? && Alike(v, r.val) <==> Within(v, lim.room, lim.cap) && safe && FloatsHold(o, v))
      && (!mode.loose && KeepsTypes(o) ==> (r.Done? && r.val == v <==> Within(v, lim.room, lim.cap) && safe))
      && (Within(v, lim.room, lim.cap) && safe ==> r.Done?)
      && (r.Done? ==> Within(v, lim.room, lim.cap) && r.end == |before| + |Emit(w)|)
      && (r.Done? && Steady(o.intern, w, d) ==> r.dict == Learned(o.intern, w, d))
    ensures DecodeTopAt(mode.loose, mode, before + Emit(w) + after, |before|, lim, d)
         == DecodeAt(mode, before + Emit(w) + after, |before|, lim, d)
  {
    hide Emit, Parse, Interp, Height, Width, DecodeTopAt, Encodes, Encodable, Within, Learned, Alike, Lost, Safe,
      ExtsKnown, FloatsHold;
    EncodesValid(o, v, w, d);
    ReadBack(mode, o, v, w, d);
    DictionariesAgree(mode, o, v, w, d);
    FitsIsWithin(o, v, w, d, lim.room, lim.cap);
    var input := before + Emit(w) + after;
    assert input[|before|..|before| + |Emit(w)|] == Emit(w);
    ParseEmit(input, |before|, w);
    TopIsDecode(mode, input, |before|, lim, d);
  }

  function Nils(n: nat): seq<Value> { seq(n, i => VNil) }

  lemma NilsFacts(mode: Mode, n: nat, lim: Limits)
    requires n < MAX_LEN && lim.room >= 2
    ensures var v := VArr(Nils(n));
      && Encodable(v) && ExtsKnown(mode, v) && ShortStrings(v)
      && (Within(v, lim.room, lim.cap) <==> n <= lim.cap)
  {}

  /** The limit on container lengths shows: an array of n nils is decoded exactly when n does not
      exceed it. On a stream of unknown length it is a million unless limits are off. */
  lemma CeilingShows(mode: Mode, o: Options, n: nat, w: Wire, after: bytes, lim: Limits)
    requires mode.intern == o.intern && n < MAX_LEN && lim.room >= 2 && Encodes(o, VArr(Nils(n)), w, [])
    ensures Valid(w)
    ensures DecodeAt(mode, Emit(w) + after, 0, lim, []).Done? <==> n <= lim.cap
  {
    hide Encodes, Encodable, ExtsKnown, ShortStrings, Within, Emit, DecodeAt, Lost, Learned, Alike, Safe, FloatsHold;
    var v := VArr(Nils(n));
    NilsFacts(mode, n, lim);
    ShortIsSteady(o, v, w, [], None);
    SteadyIsSafe(o.intern, w, []);
    RoundTrip(mode, o, v, w, [], after, lim, []);
    assert [] + Emit(w) + after == Emit(w) + after;
  }

  /** No proper prefix of an encoded value is decoded or skipped, under any limits, nested or at
      the entry point. */
  lemma TruncatedRejected(top: bool, mode: Mode, w: Wire, k: nat, lim: Limits, dict: Dict)
    requires Valid(w) && k < |Emit(w)|
    ensures BoundedAt(Emit(w)[..k], 0, lim) == Err
    ensures DecodeAt(mode, Emit(w)[..k], 0, lim, dict) == Fail
    ensures DecodeTopAt(top, mode, Emit(w)[..k], 0, lim, dict) == Fail
  {
    PrefixRejected(w, k);
  }

  /** Appending bytes never changes what was decoded or skipped. */
  lemma ExtensionKept(top: bool, mode: Mode, input: bytes, more: bytes, pos: nat, lim: Limits, dict: Dict)
    requires input <= more
    ensures BoundedAt(input, pos, lim).Ok? ==> BoundedAt(more, pos, lim) == BoundedAt(input, pos, lim)
    ensures DecodeAt(mode, input, pos, lim, dict).Done? ==>
      DecodeAt(mode, more, pos, lim, dict) == DecodeAt(mode, input, pos, lim, dict)
    ensures DecodeTopAt(top, mode, input, pos, lim, dict).Done? ==>
      DecodeTopAt(top, mode, more, pos, lim, dict) == DecodeTopAt(top, mode, input, pos, lim, dict)
  {
    hide Parse;
    if Parse(input, pos).Ok? { ParseExtends(input, more, pos); }
  }

  /** What a parsed value means at the entry point: a scalar is read as top says. */
  function TopOf(top: bool, mode: Mode, w: Wire, dict: Dict): Got<Value> {
    if w.WArr? || w.WMap? then Interp(mode, w, dict) else ScalarOf(mode.(loose := top), w, dict)
  }

  /** On a reader that tells its length, or with the ceiling lifted, the remaining-input guards
      only hasten a failure: skipping and decoding come down to the unguarded grammar and the
      nesting, so a well-formed value of height h is skipped exactly when h levels are left. */
  lemma {:induction false} GuardsOnlyHasten(top: bool, mode: Mode, input: bytes, pos: nat, room: int, dict: Dict)
    ensures BoundedAt(input, pos, Limits(room, MAX_LEN)).Ok?
      <==> Parse(input, pos).Ok? && Height(Parse(input, pos).val) <= room
    ensures DecodeAt(mode, input, pos, Limits(room, MAX_LEN), dict)
         == (match Parse(input, pos)
             case Err => Fail
             case Ok(w, e) => if Height(w) <= room then Finish(Interp(mode, w, dict), e) else Fail)
    ensures DecodeTopAt(top, mode, input, pos, Limits(room, MAX_LEN), dict)
         == (match Parse(input, pos)
             case Err => Fail
             case Ok(w, e) => if Height(w) <= room then Finish(TopOf(top, mode, w, dict), e) else Fail)
  {
    hide Parse, Height, Width, Interp, ScalarOf;
    ParseValid(input, pos);
    if Parse(input, pos).Ok? { ValidWidth(Parse(input, pos).val); }
  }

  /** Skip against a decode from the same state, where room levels are left below: a decode
      one level down is always followed by Skip, to the same end; a decode at the current level
      does not count its own level, and Skip follows it exactly when the value fits below. */
  lemma SkipAgainstDecode(top: bool, mode: Mode, input: bytes, pos: nat, room: int, cap: nat, dict: Dict)
    ensures var below := BoundedAt(input, pos, Limits(room, cap));
      && (DecodeAt(mode, input, pos, Limits(room, cap), dict).Done? ==>
            below.Ok? && below.end == DecodeAt(mode, input, pos, Limits(room, cap), dict).end)
      && (DecodeTopAt(top, mode, input, pos, Limits(room + 1, cap), dict).Done? ==>
            && (below.Ok? <==> Height(Parse(input, pos).val) <= room)
            && (below.Ok? ==> below.end == DecodeTopAt(top, mode, input, pos, Limits(room + 1, cap), dict).end))
  {
    hide Parse, Interp, ScalarOf, Height, Width;
  }

  /** With no level left the difference shows: the entry point still reads a scalar. */
  lemma SkipStricterAtTheLimit(mode: Mode)
    ensures DecodeTopAt(false, mode, [0x05], 0, Limits(1, MAX_LEN), []).Done?
    ensures BoundedAt([0x05], 0, Limits(0, MAX_LEN)) == Err
  {
    PowValues();
    assert Parse([0x05], 0) == Ok(WFix(5), 1);
  }

  /** Loose decoding of bytes is strict decoding followed by widening: same inputs accepted,
      same end, same dictionary. */
  lemma LooseDecode(mode: Mode, input: bytes, pos: nat, lim: Limits, dict: Dict)
    requires !mode.loose
    ensures DecodeAt(mode.(loose := true), input, pos, lim, dict)
         == (match DecodeAt(mode, input, pos, lim, dict)
             case Fail => Fail
             case Done(v, e, d) => Done(Widen(v), e, d))
  {
    hide BoundedAt, Interp, Widen;
    if BoundedAt(input, pos, lim).Ok? { LooseIsWidened(mode, BoundedAt(input, pos, lim).val, dict); }
  }
}
