/**
 Reading back what was encoded. The encoder learns string values and map keys, the interface
 decoder map keys only: from the first string value the encoder learns, the two lists part, and
 what counts is whether a reference reaches beyond that point.
 */
module Reading {
  import opened Bytes
  import opened Buffers
  import opened Codes
  import opened Wire
  import opened Value
  import opened Intern
  import opened Forms
  import Floats
  import Numbers
  import Rounding
  import CompactFloats
  import Time

  ghost predicate ExtsKnown(mode: Mode, v: Value)
    decreases v
  {
    match v
    case VArr(vs) => forall i :: 0 <= i < |vs| ==> ExtsKnown(mode, vs[i])
    case VMap(m) => forall k :: k in m ==> ExtsKnown(mode, m[k])
    case VExt(id, data) => mode.registered(id, data)
    case _ => true
  }

  // ---- numerically equal trees ----

  predicate IsInteger(u: Value, n: int) { (u.VInt? || u.VUint?) && u.n == n }

  /** A float under another name: itself, widened, or an integer of the same value. */
  ghost predicate SameFloat(k: nat, bits: nat, u: Value) {
    var f := CompactFloats.FormatOf(k);
    || u == VFloat(k, bits)
    || (k == 4 && u == VFloat(8, Floats.Widen32(bits)))
    || (Floats.Finite(f, bits) && exists n: int :: IsInteger(u, n) && n as real == Floats.RealValue(f, bits))
  }

  /** u is v up to the types of its numbers and, for byte strings, of its strings. */
  ghost predicate Alike(v: Value, u: Value)
    decreases v
  {
    match v
    case VInt(_, n) => IsInteger(u, n)
    case VUint(_, n) => IsInteger(u, n)
    case VFloat(k, bits) => SameFloat(k, bits, u)
    case VBin(s) => u == v || u == VStr(s)
    case VArr(vs) => u.VArr? && AllAlike(vs, u.items)
    case VMap(m) => u.VMap? && u.m.Keys == m.Keys && forall k :: k in m ==> Alike(m[k], u.m[k])
    case _ => u == v
  }

  ghost predicate AllAlike(vs: seq<Value>, us: seq<Value>)
    decreases vs
  {
    |us| == |vs| && forall i :: 0 <= i < |vs| ==> Alike(vs[i], us[i])
  }

  // ---- the one float that compaction may change ----

  /** 2^63 as a float. */
  ghost predicate IsTwo63(k: nat, bits: nat) {
    var f := CompactFloats.FormatOf(k);
    Floats.Finite(f, bits) && Floats.RealValue(f, bits) == TWO63 as real
  }

  /** 2^63, which is out of range, and the hardware's answer for it rounds back to it. */
  ghost predicate Reverts(o: Options, k: nat, bits: nat) {
    var f := CompactFloats.FormatOf(k);
    o.compactFloats && IsTwo63(k, bits) && Rounding.FromInt64(f, o.convert(f, bits)) == bits
  }

  ghost predicate FloatsHold(o: Options, v: Value)
    decreases v
  {
    match v
    case VArr(vs) => forall i :: 0 <= i < |vs| ==> FloatsHold(o, vs[i])
    case VMap(m) => forall k :: k in m ==> FloatsHold(o, m[k])
    case VFloat(k, bits) => !Reverts(o, k, bits)
    case _ => true
  }

  lemma IntegerRead(mode: Mode, n: int, d: Dict)
    requires -TWO63 <= n < TWO64
    ensures Interp(mode, Numbers.SmallestInt(n), d).Got?
    ensures Interp(mode, Numbers.SmallestInt(n), d).dict == d
    ensures IsInteger(Interp(mode, Numbers.SmallestInt(n), d).val, n)
    ensures n >= 0 ==> Numbers.SmallestInt(n) == Numbers.SmallestUint(n)
  {}

  /** A compact float is read as the same number, unless it is 2^63 and the hardware's answer
      for it rounds back to it: then another integer was written. */
  lemma CompactRead(mode: Mode, k: nat, bits: nat, wild: int, d: Dict)
    requires Encodable(VFloat(k, bits)) && -TWO63 <= wild < TWO63
    ensures FloatPattern(k, bits)
    ensures var f := CompactFloats.FormatOf(k);
      var r := Interp(mode, CompactFloats.CompactForm(f, bits, wild), d);
      && r.Got? && r.dict == d
      && (SameFloat(k, bits, r.val) <==> !(IsTwo63(k, bits) && Rounding.FromInt64(f, wild) == bits))
  {
    hide Numbers.SmallestInt, Floats.Finite, Floats.RealValue, Floats.Widen32, CompactFloats.CompactForm,
      CompactFloats.HardwareInt64, Pow256, Rounding.FromInt64;
    SizedRange(VFloat(k, bits));
    var f := CompactFloats.FormatOf(k);
    var w := CompactFloats.CompactForm(f, bits, wild);
    CompactFloats.CompactWhen(f, bits, wild);
    CompactFloats.HardwareRange(f, bits, wild);
    CompactFloats.CompactShape(f, bits, wild);
    Floats.IntegerIsIntegral(TWO63);
    var n := CompactFloats.HardwareInt64(f, bits, wild);
    CompactFloats.IntegerFormNotFloat(n);
    if !w.WFloat? {
      IntegerRead(mode, n, d);
      if n as real == Floats.RealValue(f, bits) { assert IsInteger(Interp(mode, w, d).val, n); }
    }
  }

  lemma TypedFloat(mode: Mode, k: nat, bits: nat, d: Dict)
    ensures var r := Interp(mode, WFloat(k, bits), d);
      r.Got? && r.dict == d && SameFloat(k, bits, r.val) && (!mode.loose ==> r.val == VFloat(k, bits))
  {}

  /** A number is read as itself, up to its type, exactly when it is no float that reverts. */
  lemma NumberRead(mode: Mode, o: Options, v: Value, w: Wire, e: Dict, d: Dict)
    requires IsNumber(v) && Encodable(v) && Encodes(o, v, w, e)
    ensures var r := Interp(mode, w, d);
      && r.Got? && r.dict == d && (Alike(v, r.val) <==> FloatsHold(o, v))
      && (!mode.loose && KeepsTypes(o) ==> r.val == v)
  {
    hide Numbers.SmallestInt, Numbers.SmallestUint, SameFloat, IsTwo63, CompactFloats.CompactForm, Pow256,
      Rounding.FromInt64;
    SizedRange(v);
    match v
    case VInt(_, n) => IntegerRead(mode, n, d);
    case VUint(_, n) => IntegerRead(mode, n, d);
    case VFloat(k, bits) =>
      var f := CompactFloats.FormatOf(k);
      TypedFloat(mode, k, bits, d);
      CompactRead(mode, k, bits, o.convert(f, bits), d);
  }

  // ---- where the lists part ----

  /** The size of the encoder's list when it learned its first string value, if it did. */
  function Lost(intern: bool, w: Wire, e: Dict, lost: Option<nat>): Option<nat>
    decreases w, 0
  {
    match w
    case WStr(s) => if lost.None? && Remember(intern, e, s) != e then Some(|e|) else lost
    case WArr(ws) => LostAll(intern, ws, e, lost)
    case WMap(es) => LostEntries(intern, es, e, lost)
    case _ => lost
  }

  function LostAll(intern: bool, ws: seq<Wire>, e: Dict, lost: Option<nat>): Option<nat>
    decreases ws, 1
  {
    if ws == [] then lost else LostAll(intern, ws[1..], Learned(intern, ws[0], e), Lost(intern, ws[0], e, lost))
  }

  function LostEntries(intern: bool, ws: seq<Wire>, e: Dict, lost: Option<nat>): Option<nat>
    decreases ws, 1
  {
    if |ws| < 2 then lost else
    var e1 := Learned(intern, ws[0], e);
    LostEntries(intern, ws[2..], Learned(intern, ws[1], e1), Lost(intern, ws[1], e1, lost))
  }

  /** No string value is learned. */
  predicate Steady(intern: bool, w: Wire, d: Dict) { Lost(intern, w, d, None).None? }

  /** A reference that stays below the point where the lists parted, or no reference at all. */
  predicate SafeRef(w: Wire, lost: Option<nat>) {
    w.WExt? && w.fixed && w.id == INTERNED_ID && lost.Some? ==> FromBe(w.data) < lost.value
  }

  /** Every reference of the tree, as a key or as a value, stays below that point. */
  predicate Safe(intern: bool, w: Wire, e: Dict, lost: Option<nat>)
    decreases w, 0
  {
    match w
    case WArr(ws) => SafeAll(intern, ws, e, lost)
    case WMap(es) => SafeEntries(intern, es, e, lost)
    case _ => SafeRef(w, lost)
  }

  predicate SafeAll(intern: bool, ws: seq<Wire>, e: Dict, lost: Option<nat>)
    decreases ws, 1
  {
    ws == [] ||
    (Safe(intern, ws[0], e, lost)
     && SafeAll(intern, ws[1..], Learned(intern, ws[0], e), Lost(intern, ws[0], e, lost)))
  }

  predicate SafeEntries(intern: bool, ws: seq<Wire>, e: Dict, lost: Option<nat>)
    decreases ws, 1
  {
    |ws| < 2 ||
    (var e1 := Learned(intern, ws[0], e);
     && SafeRef(ws[0], lost) && Safe(intern, ws[1], e1, lost)
     && SafeEntries(intern, ws[2..], Learned(intern, ws[1], e1), Lost(intern, ws[1], e1, lost)))
  }

  /** The encoder's list e and the decoder's d after the same bytes. They are equal until a
      string value is learned at k. From there on the decoder is behind: what it has at an index
      the encoder has at a later one, or not at all. */
  ghost predicate Tracked(e: Dict, d: Dict, lost: Option<nat>) {
    match lost
    case None => e == d
    case Some(k) =>
      && k < |e| && k <= |d| <= |e| && e[..k] == d[..k] && e[k] !in e[..k]
      && (|d| < |e| || |e| >= MAX_DICT_LEN)
      && forall i, j :: 0 <= i <= j < |d| && k <= j ==> d[j] != e[i]
  }

  /** Sending a key moves both lists. */
  lemma KeyTracks(intern: bool, s: bytes, e: Dict, d: Dict, lost: Option<nat>)
    requires Tracked(e, d, lost) && |e| <= MAX_LEN
    ensures var r := StringOf(intern, SentBy(e, s), d);
      r.Got? ==> Tracked(Learned(intern, SentBy(e, s), e), r.dict, lost)
  {
    hide Reference;
    if s in e {
      ReferenceRead(intern, IndexIn(e, s), d);
      ReferenceLearns(intern, IndexIn(e, s), e);
    }
  }

  lemma ReferenceLearns(intern: bool, idx: nat, e: Dict)
    ensures Learned(intern, Reference(idx), e) == e && forall lost :: Lost(intern, Reference(idx), e, lost) == lost
  {
    hide Be;
  }

  /** A key is read as itself exactly when its reference is safe. Otherwise what is read in its
      place is none of the strings the encoder has up to that index. */
  lemma KeyRead(intern: bool, s: bytes, e: Dict, d: Dict, lost: Option<nat>)
    requires Tracked(e, d, lost) && |e| <= MAX_LEN
    ensures var r, kw := StringOf(intern, SentBy(e, s), d), SentBy(e, s);
      && (r.Got? && r.val == s <==> SafeRef(kw, lost))
      && (!SafeRef(kw, lost) ==>
            && kw.WExt? && FromBe(kw.data) < |e| && e[FromBe(kw.data)] == s
            && (r.Got? ==> Above(e, FromBe(kw.data), r.val)))
  {
    hide Be, FromBe;
    if s in e {
      ReferenceRead(intern, IndexIn(e, s), d);
      ReferenceData(IndexIn(e, s));
    }
  }

  /** y is none of the first strings of e, up to index j. */
  ghost predicate Above(e: Dict, j: nat, y: bytes) { forall i :: 0 <= i <= j && i < |e| ==> y != e[i] }

  /** The same for a string as a value. */
  lemma StringRead(mode: Mode, intern: bool, s: bytes, e: Dict, d: Dict, lost: Option<nat>)
    requires Tracked(e, d, lost) && |e| <= MAX_LEN
    ensures var r, w := Interp(mode, SentBy(e, s), d), SentBy(e, s);
      && (r.Got? ==> Tracked(Learned(intern, w, e), r.dict, Lost(intern, w, e, lost)))
      && (r.Got? && r.val == VStr(s) <==> Safe(intern, w, e, lost))
  {
    hide Be, FromBe;
    if s in e {
      var i := IndexIn(e, s);
      ReferenceData(i);
      ReferenceLearns(intern, i, e);
      ReferenceAsValue(mode, i, d);
    } else {
      NewValue(intern, s, e, d, lost);
    }
  }

  lemma ReferenceAsValue(mode: Mode, idx: nat, d: Dict)
    requires idx < MAX_LEN
    ensures Interp(mode, Reference(idx), d) == if idx < |d| then Got(VStr(d[idx]), d) else Bad
  {
    hide Be, FromBe;
    ReferenceData(idx);
  }

  lemma NewValue(intern: bool, s: bytes, e: Dict, d: Dict, lost: Option<nat>)
    requires Tracked(e, d, lost) && s !in e
    ensures Tracked(Remember(intern, e, s), d, if lost.None? && Remember(intern, e, s) != e then Some(|e|) else lost)
  {
    var e1 := Remember(intern, e, s);
    if e1 != e && lost.Some? {
      assert e1[..lost.value] == e[..lost.value];
    }
  }

  // ---- the lists stay tracked through any tree ----

  lemma {:induction false} Tracks(mode: Mode, o: Options, v: Value, w: Wire, e: Dict, d: Dict, lost: Option<nat>)
    requires mode.intern == o.intern && |e| <= MAX_LEN && Encodable(v) && Encodes(o, v, w, e) && Tracked(e, d, lost)
    ensures Interp(mode, w, d).Got? ==>
      Tracked(Learned(o.intern, w, e), Interp(mode, w, d).dict, Lost(o.intern, w, e, lost))
    decreases w, 0
  {
    hide Tracked, EncodesAll, EncodesEntries, InterpAll, InterpEntries, LearnedAll, LostAll, LostEntries, SentBy,
      ScalarOf, FloatForm, Numbers.SmallestInt, Numbers.SmallestUint, Encodable, Time.Pack;
    match v
    case VArr(vs) => EncodableItems(v); TracksAll(mode, o, vs, w.items, e, d, lost);
    case VMap(m) => EncodableItems(v); TracksEntries(mode, o, m, w.entries, e, d, lost);
    case VStr(s) => StringRead(mode, o.intern, s, e, d, lost);
    case _ => ScalarTracks(mode, o, v, w, e, d, lost);
  }

  lemma ScalarTracks(mode: Mode, o: Options, v: Value, w: Wire, e: Dict, d: Dict, lost: Option<nat>)
    requires Encodable(v) && Encodes(o, v, w, e) && !v.VArr? && !v.VMap? && !v.VStr?
    ensures Learned(o.intern, w, e) == e && Lost(o.intern, w, e, lost) == lost && SafeRef(w, lost)
    ensures Interp(mode, w, d).Got? ==> Interp(mode, w, d).dict == d
  {
    hide FloatForm, Numbers.SmallestInt, Numbers.SmallestUint, Time.Pack, Time.Unpack, FixExtLen, Pow256;
    FormKind(o, v, w, e);
  }

  lemma {:induction false} TracksAll(mode: Mode, o: Options, vs: seq<Value>, ws: seq<Wire>, e: Dict, d: Dict,
      lost: Option<nat>)
    requires mode.intern == o.intern && |e| <= MAX_LEN && EncodesAll(o, vs, ws, e) && Tracked(e, d, lost)
    requires forall i :: 0 <= i < |vs| ==> Encodable(vs[i])
    ensures InterpAll(mode, ws, d).Got? ==>
      Tracked(LearnedAll(o.intern, ws, e), InterpAll(mode, ws, d).dict, LostAll(o.intern, ws, e, lost))
    decreases ws, 1
  {
    hide Tracked, Encodes, Interp, Learned, Lost, Encodable;
    if ws == [] {
    } else if Interp(mode, ws[0], d).Got? {
      Tracks(mode, o, vs[0], ws[0], e, d, lost);
      LearnedSmall(o.intern, ws[0], e);
      TracksAll(mode, o, vs[1..], ws[1..], Learned(o.intern, ws[0], e), Interp(mode, ws[0], d).dict,
                Lost(o.intern, ws[0], e, lost));
    }
  }

  lemma {:induction false} TracksEntries(mode: Mode, o: Options, m: map<bytes, Value>, ws: seq<Wire>, e: Dict, d: Dict,
      lost: Option<nat>)
    requires mode.intern == o.intern && |e| <= MAX_LEN && EncodesEntries(o, m, ws, e) && Tracked(e, d, lost)
    requires forall k :: k in m ==> Encodable(m[k])
    ensures InterpEntries(mode, ws, d).Got? ==>
      Tracked(LearnedAll(o.intern, ws, e), InterpEntries(mode, ws, d).dict, LostEntries(o.intern, ws, e, lost))
    decreases ws, 1
  {
    hide Tracked, Encodes, Interp, Learned, Lost, Encodable, StringOf, SentBy, KeyOf, IsLeast;
    if ws == [] {
    } else if StringOf(mode.intern, ws[0], d).Got? {
      var k, e1, d1 := KeyOf(ws[0], e), Learned(o.intern, ws[0], e), StringOf(mode.intern, ws[0], d).dict;
      KeyTracks(o.intern, k, e, d, lost);
      LearnedSmall(o.intern, ws[0], e);
      assert ws[1..][1..] == ws[2..];
      if Interp(mode, ws[1], d1).Got? {
        Tracks(mode, o, m[k], ws[1], e1, d1, lost);
        LearnedSmall(o.intern, ws[1], e1);
        TracksEntries(mode, o, m - {k}, ws[2..], Learned(o.intern, ws[1], e1), Interp(mode, ws[1], d1).dict,
                      Lost(o.intern, ws[1], e1, lost));
      }
    }
  }

  // ---- the keys of a map that are read amiss ----

  /** The least index among the unsafe key references of a map body. */
  function LeastUnsafe(intern: bool, ws: seq<Wire>, e: Dict, lost: Option<nat>): Option<nat>
    decreases ws
  {
    if |ws| < 2 then None else
    var e1 := Learned(intern, ws[0], e);
    var rest := LeastUnsafe(intern, ws[2..], Learned(intern, ws[1], e1), Lost(intern, ws[1], e1, lost));
    if SafeRef(ws[0], lost) || !ws[0].WExt? then rest
    else if rest.None? || FromBe(ws[0].data) <= rest.value then Some(FromBe(ws[0].data))
    else rest
  }

  lemma {:induction false} LearnedGrows(intern: bool, w: Wire, e: Dict)
    ensures e <= Learned(intern, w, e)
    decreases w, 0
  {
    match w
    case WArr(ws) => LearnedAllGrows(intern, ws, e);
    case WMap(es) => LearnedAllGrows(intern, es, e);
    case _ =>
  }

  lemma {:induction false} LearnedAllGrows(intern: bool, ws: seq<Wire>, e: Dict)
    ensures e <= LearnedAll(intern, ws, e)
    decreases ws, 1
  {
    hide Learned;
    if ws == [] {
    } else {
      LearnedGrows(intern, ws[0], e);
      LearnedAllGrows(intern, ws[1..], Learned(intern, ws[0], e));
    }
  }

  /** What the keys of a decoded map body are, given the encoder's list at its end and the least
      unsafe index j: the keys that were sent, or strings other than the first ones of the list,
      up to j. The key at j is missing. */
  ghost predicate KeysFate(all: Dict, sent: set<bytes>, j: Option<nat>, got: set<bytes>) {
    && (j.None? ==> got == sent)
    && (j.Some? ==> j.value < |all| && all[j.value] in sent && all[j.value] !in got)
    && forall y :: y in got ==> y in sent || (j.Some? && Above(all, j.value, y))
  }

  /** A key in front of the others. */
  lemma FateStep(e: Dict, all: Dict, sent: set<bytes>, rest: Option<nat>, got: set<bytes>, s: bytes, x: bytes,
      unsafe: Option<nat>)
    requires e <= all && KeysFate(all, sent, rest, got) && s !in sent
    requires unsafe.None? ==> x == s
    requires unsafe.Some? ==> unsafe.value < |e| && e[unsafe.value] == s && Above(e, unsafe.value, x)
    ensures var least := if unsafe.None? then rest
                         else if rest.None? || unsafe.value <= rest.value then unsafe else rest;
      KeysFate(all, sent + {s}, least, got + {x})
  {
    if unsafe.Some? {
      assert all[unsafe.value] == s;
      assert forall i :: 0 <= i <= unsafe.value ==> all[i] == e[i];
    }
  }

  lemma {:induction false} KeysRead(mode: Mode, o: Options, m: map<bytes, Value>, ws: seq<Wire>, e: Dict, d: Dict,
      lost: Option<nat>)
    requires mode.intern == o.intern && |e| <= MAX_LEN && EncodesEntries(o, m, ws, e) && Tracked(e, d, lost)
    requires forall k :: k in m ==> Encodable(m[k])
    requires InterpEntries(mode, ws, d).Got?
    ensures KeysFate(LearnedAll(o.intern, ws, e), m.Keys, LeastUnsafe(o.intern, ws, e, lost),
                     InterpEntries(mode, ws, d).val.Keys)
    decreases ws, 1
  {
    hide Tracked, Encodes, Interp, Learned, Lost, Encodable, StringOf, SentBy, KeyOf, IsLeast, SafeRef, KeysFate, Above;
    if ws == [] {
      NoKeys(LearnedAll(o.intern, ws, e));
      assert m.Keys == {} && InterpEntries(mode, ws, d).val.Keys == {};
    } else {
      var k, e1, key := KeyOf(ws[0], e), Learned(o.intern, ws[0], e), StringOf(mode.intern, ws[0], d);
      var e2, lost2 := Learned(o.intern, ws[1], e1), Lost(o.intern, ws[1], e1, lost);
      KeyTracks(o.intern, k, e, d, lost);
      KeyRead(o.intern, k, e, d, lost);
      LearnedSmall(o.intern, ws[0], e);
      LearnedSmall(o.intern, ws[1], e1);
      Tracks(mode, o, m[k], ws[1], e1, key.dict, lost);
      var tail := InterpEntries(mode, ws[2..], Interp(mode, ws[1], key.dict).dict);
      KeysRead(mode, o, m - {k}, ws[2..], e2, Interp(mode, ws[1], key.dict).dict, lost2);
      assert ws[1..][1..] == ws[2..];
      LearnedGrows(o.intern, ws[0], e);
      LearnedGrows(o.intern, ws[1], e1);
      LearnedAllGrows(o.intern, ws[2..], e2);
      PairLearned(o.intern, ws, e);
      var unsafe := if SafeRef(ws[0], lost) then None else Some(FromBe(ws[0].data));
      FateStep(e, LearnedAll(o.intern, ws, e), (m - {k}).Keys, LeastUnsafe(o.intern, ws[2..], e2, lost2),
               tail.val.Keys, k, key.val, unsafe);
      assert m.Keys == (m - {k}).Keys + {k};
      assert InterpEntries(mode, ws, d).val.Keys == tail.val.Keys + {key.val};
    }
  }

  lemma PairLearned(intern: bool, ws: seq<Wire>, e: Dict)
    requires |ws| >= 2
    ensures LearnedAll(intern, ws, e)
         == LearnedAll(intern, ws[2..], Learned(intern, ws[1], Learned(intern, ws[0], e)))
  {
    hide Learned;
    assert ws[1..][1..] == ws[2..] && ws[1..][0] == ws[1];
  }

  lemma NoKeys(all: Dict)
    ensures KeysFate(all, {}, None, {})
  {}

  lemma FateTells(all: Dict, sent: set<bytes>, j: Option<nat>, got: set<bytes>)
    requires KeysFate(all, sent, j, got)
    ensures got == sent <==> j.None?
  {}

  // ---- reading back ----

  /** A tree is read back, up to the types of its numbers, exactly when every reference in it is
      safe and no float of it reverts; and exactly as it was where types are kept and the reading
      is strict. */
  lemma {:induction false} Reads(mode: Mode, o: Options, v: Value, w: Wire, e: Dict, d: Dict, lost: Option<nat>)
    requires mode.intern == o.intern && |e| <= MAX_LEN && Encodable(v) && ExtsKnown(mode, v)
    requires Encodes(o, v, w, e) && Tracked(e, d, lost)
    ensures var r := Interp(mode, w, d);
      && (Safe(o.intern, w, e, lost) ==> r.Got?)
      && (r.Got? && Alike(v, r.val) <==> Safe(o.intern, w, e, lost) && FloatsHold(o, v))
      && (Safe(o.intern, w, e, lost) && !mode.loose && KeepsTypes(o) ==> r.val == v)
    decreases w, 0
  {
    hide Tracked, EncodesAll, EncodesEntries, InterpAll, InterpEntries, SafeAll, SafeEntries, SafeRef, ScalarOf,
      Encodable, FloatForm, Numbers.SmallestInt, Numbers.SmallestUint, SentBy, Time.Pack, SameFloat, Reverts, AllAlike;
    FormKind(o, v, w, e);
    if IsNumber(v) {
      NumberRead(mode, o, v, w, e, d);
      ScalarTracks(mode, o, v, w, e, d, lost);
    } else {
      match v
      case VArr(vs) => EncodableItems(v); ReadsAll(mode, o, vs, w.items, e, d, lost);
      case VMap(m) => EncodableItems(v); ReadsEntries(mode, o, m, w.entries, e, d, lost);
      case VStr(s) => StringRead(mode, o.intern, s, e, d, lost);
      case _ => ScalarTracks(mode, o, v, w, e, d, lost); PlainRead(mode, o, v, w, e, d);
    }
  }

  lemma PlainRead(mode: Mode, o: Options, v: Value, w: Wire, e: Dict, d: Dict)
    requires Plain(v) && !v.VStr? && Encodable(v) && ExtsKnown(mode, v) && Encodes(o, v, w, e)
    ensures Interp(mode, w, d).Got? && Alike(v, Interp(mode, w, d).val)
    ensures !mode.loose ==> Interp(mode, w, d).val == v
  {
    hide Time.Pack, Time.Unpack, FixExtLen;
    if v.VTime? { Time.UnpackPack(v.t); }
  }

  lemma {:induction false} ReadsAll(mode: Mode, o: Options, vs: seq<Value>, ws: seq<Wire>, e: Dict, d: Dict,
      lost: Option<nat>)
    requires mode.intern == o.intern && |e| <= MAX_LEN && EncodesAll(o, vs, ws, e) && Tracked(e, d, lost)
    requires forall i :: 0 <= i < |vs| ==> Encodable(vs[i]) && ExtsKnown(mode, vs[i])
    ensures var r, safe := InterpAll(mode, ws, d), SafeAll(o.intern, ws, e, lost);
      && (safe ==> r.Got?)
      && (r.Got? && AllAlike(vs, r.val) <==> safe && forall i :: 0 <= i < |vs| ==> FloatsHold(o, vs[i]))
      && (safe && !mode.loose && KeepsTypes(o) ==> r.val == vs)
    decreases ws, 1
  {
    hide Tracked, Encodes, Interp, Learned, Lost, Encodable, ExtsKnown, Safe, FloatsHold, Alike;
    if ws == [] {
    } else {
      var r := Interp(mode, ws[0], d);
      Reads(mode, o, vs[0], ws[0], e, d, lost);
      Tracks(mode, o, vs[0], ws[0], e, d, lost);
      LearnedSmall(o.intern, ws[0], e);
      assert vs == [vs[0]] + vs[1..];
      if r.Got? {
        ReadsAll(mode, o, vs[1..], ws[1..], Learned(o.intern, ws[0], e), r.dict, Lost(o.intern, ws[0], e, lost));
      }
    }
  }

  ghost predicate EntriesAlike(m: map<bytes, Value>, u: map<bytes, Value>) {
    u.Keys == m.Keys && forall k :: k in m ==> Alike(m[k], u[k])
  }

  lemma {:induction false} ReadsEntries(mode: Mode, o: Options, m: map<bytes, Value>, ws: seq<Wire>, e: Dict, d: Dict,
      lost: Option<nat>)
    requires mode.intern == o.intern && |e| <= MAX_LEN && EncodesEntries(o, m, ws, e) && Tracked(e, d, lost)
    requires forall k :: k in m ==> Encodable(m[k]) && ExtsKnown(mode, m[k])
    ensures var r, safe := InterpEntries(mode, ws, d), SafeEntries(o.intern, ws, e, lost);
      && (safe ==> r.Got?)
      && (r.Got? && EntriesAlike(m, r.val) <==> safe && forall k :: k in m ==> FloatsHold(o, m[k]))
      && (safe && !mode.loose && KeepsTypes(o) ==> r.val == m)
    decreases ws, 1
  {
    hide Tracked, Encodes, Interp, Learned, Lost, Encodable, ExtsKnown, Safe, FloatsHold, Alike, StringOf, SentBy,
      KeyOf, IsLeast, SafeRef, EntriesAlike, KeysFate;
    if ws == [] {
      NoneAlike();
    } else if LeastUnsafe(o.intern, ws, e, lost).Some? {
      UnsafeEntries(o.intern, ws, e, lost);
      if InterpEntries(mode, ws, d).Got? {
        KeysRead(mode, o, m, ws, e, d, lost);
        var got := InterpEntries(mode, ws, d).val;
        FateTells(LearnedAll(o.intern, ws, e), m.Keys, LeastUnsafe(o.intern, ws, e, lost), got.Keys);
        DifferentKeys(m, got);
      }
    } else {
      var k, e1, key := KeyOf(ws[0], e), Learned(o.intern, ws[0], e), StringOf(mode.intern, ws[0], d);
      var e2, lost2, rest := Learned(o.intern, ws[1], e1), Lost(o.intern, ws[1], e1, lost), m - {k};
      KeyTracks(o.intern, k, e, d, lost);
      KeyRead(o.intern, k, e, d, lost);
      SafeHead(o.intern, ws, e, lost);
      LearnedSmall(o.intern, ws[0], e);
      LearnedSmall(o.intern, ws[1], e1);
      Reads(mode, o, m[k], ws[1], e1, key.dict, lost);
      Tracks(mode, o, m[k], ws[1], e1, key.dict, lost);
      assert m == map[k := m[k]] + rest;
      assert ws[1..][1..] == ws[2..];
      var r := Interp(mode, ws[1], key.dict);
      if r.Got? {
        var tail := InterpEntries(mode, ws[2..], r.dict);
        ReadsEntries(mode, o, rest, ws[2..], e2, r.dict, lost2);
        if tail.Got? {
          KeysRead(mode, o, rest, ws[2..], e2, r.dict, lost2);
          FateTells(LearnedAll(o.intern, ws[2..], e2), rest.Keys, None, tail.val.Keys);
          AlikeStep(m, k, rest, r.val, tail.val);
        }
      }
    }
  }

  lemma NoneAlike()
    ensures EntriesAlike(map[], map[])
  {}

  lemma DifferentKeys(m: map<bytes, Value>, u: map<bytes, Value>)
    requires u.Keys != m.Keys
    ensures !EntriesAlike(m, u) && u != m
  {}

  lemma AlikeStep(m: map<bytes, Value>, k: bytes, rest: map<bytes, Value>, x: Value, tail: map<bytes, Value>)
    requires k in m && rest == m - {k} && tail.Keys == rest.Keys
    ensures EntriesAlike(m, map[k := x] + tail) <==> Alike(m[k], x) && EntriesAlike(rest, tail)
  {
    hide Alike;
    var u := map[k := x] + tail;
    assert u.Keys == m.Keys && u[k] == x;
    assert forall j :: j in rest ==> u[j] == tail[j] && m[j] == rest[j];
  }

  /** If no key is unsafe, the first one is safe and none of the others is. */
  lemma SafeHead(intern: bool, ws: seq<Wire>, e: Dict, lost: Option<nat>)
    requires |ws| >= 2 && LeastUnsafe(intern, ws, e, lost).None?
    ensures SafeRef(ws[0], lost)
    ensures var e1 := Learned(intern, ws[0], e);
      LeastUnsafe(intern, ws[2..], Learned(intern, ws[1], e1), Lost(intern, ws[1], e1, lost)).None?
  {
    hide Learned, Lost;
  }

  lemma {:induction false} UnsafeEntries(intern: bool, ws: seq<Wire>, e: Dict, lost: Option<nat>)
    requires LeastUnsafe(intern, ws, e, lost).Some?
    ensures !SafeEntries(intern, ws, e, lost)
    decreases ws
  {
    hide Learned, Lost, Safe;
    if SafeRef(ws[0], lost) {
      var e1 := Learned(intern, ws[0], e);
      UnsafeEntries(intern, ws[2..], Learned(intern, ws[1], e1), Lost(intern, ws[1], e1, lost));
    }
  }

  // ---- trees that teach the encoder no string value ----

  lemma {:induction false} LostStays(intern: bool, w: Wire, e: Dict, k: nat)
    ensures Lost(intern, w, e, Some(k)) == Some(k)
    decreases w, 0
  {
    match w
    case WArr(ws) => LostAllStays(intern, ws, e, k);
    case WMap(es) => LostAllStays(intern, es, e, k);
    case _ =>
  }

  lemma {:induction false} LostAllStays(intern: bool, ws: seq<Wire>, e: Dict, k: nat)
    ensures LostAll(intern, ws, e, Some(k)) == Some(k) && LostEntries(intern, ws, e, Some(k)) == Some(k)
    decreases ws, 1
  {
    hide Lost, Learned;
    if ws == [] {
    } else {
      LostStays(intern, ws[0], e, k);
      LostAllStays(intern, ws[1..], Learned(intern, ws[0], e), k);
      if |ws| >= 2 {
        var e1 := Learned(intern, ws[0], e);
        LostStays(intern, ws[1], e1, k);
        LostAllStays(intern, ws[2..], Learned(intern, ws[1], e1), k);
      }
    }
  }

  /** As long as no string value is learned every reference is safe. */
  lemma {:induction false} SteadyIsSafe(intern: bool, w: Wire, e: Dict)
    requires Steady(intern, w, e)
    ensures Safe(intern, w, e, None)
    decreases w, 0
  {
    match w
    case WArr(ws) => SteadyAllSafe(intern, ws, e);
    case WMap(es) => SteadyEntriesSafe(intern, es, e);
    case _ =>
  }

  lemma {:induction false} SteadyAllSafe(intern: bool, ws: seq<Wire>, e: Dict)
    requires LostAll(intern, ws, e, None).None?
    ensures SafeAll(intern, ws, e, None)
    decreases ws, 1
  {
    hide Lost, Learned, Safe;
    if ws == [] {
    } else {
      var lost := Lost(intern, ws[0], e, None);
      if lost.Some? { LostAllStays(intern, ws[1..], Learned(intern, ws[0], e), lost.value); }
      SteadyIsSafe(intern, ws[0], e);
      SteadyAllSafe(intern, ws[1..], Learned(intern, ws[0], e));
    }
  }

  lemma {:induction false} SteadyEntriesSafe(intern: bool, ws: seq<Wire>, e: Dict)
    requires LostEntries(intern, ws, e, None).None?
    ensures SafeEntries(intern, ws, e, None)
    decreases ws, 1
  {
    hide Lost, Learned, Safe;
    if |ws| < 2 {
    } else {
      var e1 := Learned(intern, ws[0], e);
      var lost := Lost(intern, ws[1], e1, None);
      if lost.Some? { LostAllStays(intern, ws[2..], Learned(intern, ws[1], e1), lost.value); }
      SteadyIsSafe(intern, ws[1], e1);
      SteadyEntriesSafe(intern, ws[2..], Learned(intern, ws[1], e1));
    }
  }

  /** Without interning nothing is learned at all. */
  lemma {:induction false} NothingLearned(w: Wire, e: Dict, lost: Option<nat>)
    ensures Learned(false, w, e) == e && Lost(false, w, e, lost) == lost
    decreases w, 0
  {
    match w
    case WArr(ws) => NothingLearnedAll(ws, e, lost);
    case WMap(es) => NothingLearnedAll(es, e, lost);
    case _ =>
  }

  lemma {:induction false} NothingLearnedAll(ws: seq<Wire>, e: Dict, lost: Option<nat>)
    ensures LearnedAll(false, ws, e) == e
    ensures LostAll(false, ws, e, lost) == lost && LostEntries(false, ws, e, lost) == lost
    decreases ws, 1
  {
    hide Learned, Lost;
    if ws == [] {
    } else {
      NothingLearned(ws[0], e, lost);
      NothingLearnedAll(ws[1..], e, lost);
      if |ws| >= 2 {
        NothingLearned(ws[1], e, lost);
        NothingLearnedAll(ws[2..], e, lost);
      }
    }
  }

  /** So with interning off, from any dictionary, every reference is safe. */
  lemma SafeWithoutInterning(w: Wire, d: Dict)
    ensures Safe(false, w, d, None) && Learned(false, w, d) == d
  {
    hide Safe, Lost, Learned;
    NothingLearned(w, d, None);
    SteadyIsSafe(false, w, d);
  }

  /** No string value long enough to be learned. */
  ghost predicate ShortStrings(v: Value)
    decreases v
  {
    match v
    case VArr(vs) => forall i :: 0 <= i < |vs| ==> ShortStrings(vs[i])
    case VMap(m) => forall k :: k in m ==> ShortStrings(m[k])
    case VStr(s) => |s| < MIN_INTERNED_LEN
    case _ => true
  }

  /** Short strings are never learned, so such a tree is safe to intern, whatever its keys. */
  lemma {:induction false} ShortIsSteady(o: Options, v: Value, w: Wire, e: Dict, lost: Option<nat>)
    requires Encodes(o, v, w, e) && ShortStrings(v)
    ensures Lost(o.intern, w, e, lost) == lost
    decreases w, 0
  {
    hide EncodesAll, EncodesEntries, FloatForm, Numbers.SmallestInt, Numbers.SmallestUint, LostAll, LostEntries, Be,
      Time.Pack;
    FormKind(o, v, w, e);
    match v
    case VArr(vs) => ShortAllSteady(o, vs, w.items, e, lost);
    case VMap(m) => ShortEntriesSteady(o, m, w.entries, e, lost);
    case _ =>
  }

  lemma {:induction false} ShortAllSteady(o: Options, vs: seq<Value>, ws: seq<Wire>, e: Dict, lost: Option<nat>)
    requires EncodesAll(o, vs, ws, e) && forall i :: 0 <= i < |vs| ==> ShortStrings(vs[i])
    ensures LostAll(o.intern, ws, e, lost) == lost
    decreases ws, 1
  {
    hide Encodes, ShortStrings, Lost, Learned;
    if ws == [] {
    } else {
      ShortIsSteady(o, vs[0], ws[0], e, lost);
      ShortAllSteady(o, vs[1..], ws[1..], Learned(o.intern, ws[0], e), lost);
    }
  }

  lemma {:induction false} ShortEntriesSteady(o: Options, m: map<bytes, Value>, ws: seq<Wire>, e: Dict,
      lost: Option<nat>)
    requires EncodesEntries(o, m, ws, e) && forall k :: k in m ==> ShortStrings(m[k])
    ensures LostEntries(o.intern, ws, e, lost) == lost
    decreases ws, 1
  {
    hide Encodes, ShortStrings, Lost, Learned, SentBy, KeyOf, IsLeast;
    if ws == [] {
    } else {
      var k, e1 := KeyOf(ws[0], e), Learned(o.intern, ws[0], e);
      ShortIsSteady(o, m[k], ws[1], e1, lost);
      ShortEntriesSteady(o, m - {k}, ws[2..], Learned(o.intern, ws[1], e1), lost);
    }
  }

  // ---- what the lists are worth afterwards ----

  /** A string sent by e is read as itself by d. */
  predicate Arrives(intern: bool, e: Dict, d: Dict, s: bytes) {
    StringOf(intern, SentBy(e, s), d).Got? && StringOf(intern, SentBy(e, s), d).val == s
  }

  lemma {:induction false} FirstIndex(d: Dict, k: bytes, i: nat)
    requires i < |d| && d[i] == k && k !in d[..i]
    ensures IndexIn(d, k) == i
    decreases i
  {
    if i == 0 {
    } else {
      assert d[0] in d[..i] && d[1..][..i - 1] == d[..i][1..];
      FirstIndex(d[1..], k, i - 1);
    }
  }

  /** Every string arrives exactly as long as the lists have not parted. */
  lemma ArriveExactly(intern: bool, e: Dict, d: Dict, lost: Option<nat>)
    requires Tracked(e, d, lost) && |e| <= MAX_LEN
    ensures (forall s: bytes :: Arrives(intern, e, d, s)) <==> lost.None?
  {
    hide SentBy, StringOf, FromBe, Be;
    forall s: bytes | lost.None? ensures Arrives(intern, e, d, s) { KeyRead(intern, s, e, d, lost); }
    if lost.Some? { LostString(intern, e, d, lost.value); }
  }

  /** The string learned where they parted does not. */
  lemma LostString(intern: bool, e: Dict, d: Dict, k: nat)
    requires Tracked(e, d, Some(k)) && |e| <= MAX_LEN
    ensures !Arrives(intern, e, d, e[k])
  {
    hide FromBe, Be, StringOf;
    FirstIndex(e, e[k], k);
    ReferenceData(k);
    KeyRead(intern, e[k], e, d, Some(k));
  }

  /** The first string a tree teaches is new. */
  ghost predicate GrowsByNew(e: Dict, e': Dict) { e <= e' && (|e| < |e'| ==> e'[|e|] !in e) }

  lemma {:induction false} LearnsNew(o: Options, v: Value, w: Wire, e: Dict)
    requires Encodes(o, v, w, e)
    ensures GrowsByNew(e, Learned(o.intern, w, e))
    decreases w, 0
  {
    hide EncodesAll, EncodesEntries, FloatForm, Numbers.SmallestInt, Numbers.SmallestUint, LearnedAll, Be, Time.Pack;
    FormKind(o, v, w, e);
    match v
    case VArr(vs) => LearnsNewAll(o, vs, w.items, e);
    case VMap(m) => LearnsNewEntries(o, m, w.entries, e);
    case _ =>
  }

  lemma {:induction false} LearnsNewAll(o: Options, vs: seq<Value>, ws: seq<Wire>, e: Dict)
    requires EncodesAll(o, vs, ws, e)
    ensures GrowsByNew(e, LearnedAll(o.intern, ws, e))
    decreases ws, 1
  {
    hide Encodes, Learned;
    if ws == [] {
    } else {
      LearnsNew(o, vs[0], ws[0], e);
      LearnsNewAll(o, vs[1..], ws[1..], Learned(o.intern, ws[0], e));
    }
  }

  lemma {:induction false} LearnsNewEntries(o: Options, m: map<bytes, Value>, ws: seq<Wire>, e: Dict)
    requires EncodesEntries(o, m, ws, e)
    ensures GrowsByNew(e, LearnedAll(o.intern, ws, e))
    decreases ws, 1
  {
    hide Encodes, Learned, SentBy, KeyOf, IsLeast;
    if ws == [] {
    } else {
      var k, e1 := KeyOf(ws[0], e), Learned(o.intern, ws[0], e);
      KeyLearnsNew(o.intern, k, e);
      LearnsNew(o, m[k], ws[1], e1);
      LearnsNewEntries(o, m - {k}, ws[2..], Learned(o.intern, ws[1], e1));
      PairLearned(o.intern, ws, e);
    }
  }

  lemma KeyLearnsNew(intern: bool, k: bytes, e: Dict)
    ensures GrowsByNew(e, Learned(intern, SentBy(e, k), e))
  {
    hide Be;
  }
}
