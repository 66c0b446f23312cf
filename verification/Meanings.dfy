/**
 What decoded values are, said apart from the walk that makes them: the type each form has, how
 entries of one name settle, what widening leaves, and that whatever is decoded can be encoded.
 */
module Meanings {
  import opened Bytes
  import opened Buffers
  import opened Codes
  import opened Wire
  import opened Value
  import opened Forms
  import opened Reading
  import Floats
  import CompactFloats
  import Time

  // ---- types ----

  /** The type of every scalar form under strict reading: a one-byte number is an int8. */
  lemma StrictTypes(mode: Mode, k: nat, n: int, bits: nat, s: bytes, d: Dict)
    requires !mode.loose
    ensures Interp(mode, WNil, d) == Got(VNil, d)
    ensures Interp(mode, WBool(true), d) == Got(VBool(true), d) && Interp(mode, WBool(false), d) == Got(VBool(false), d)
    ensures Interp(mode, WFix(n), d) == Got(VInt(1, n), d)
    ensures Interp(mode, WInt(k, n), d) == Got(VInt(k, n), d)
    ensures Interp(mode, WUint(k, n), d) == Got(VUint(k, n), d)
    ensures Interp(mode, WFloat(k, bits), d) == Got(VFloat(k, bits), d)
    ensures Interp(mode, WStr(s), d) == Got(VStr(s), d)
    ensures Interp(mode, WBin(s), d) == Got(VBin(s), d)
  {}

  /** Extensions by their type: -128 is a reference, -1 a timestamp, any other what a registered
      decoder accepts. */
  lemma ExtensionTypes(mode: Mode, fixed: bool, id: int, data: bytes, d: Dict)
    ensures Interp(mode, WExt(fixed, -128, data), d)
         == if |data| in {1, 2, 4} && FromBe(data) < |d| then Got(VStr(d[FromBe(data)]), d) else Bad
    ensures Interp(mode, WExt(fixed, -1, data), d)
         == (match Time.Unpack(data) case Bad => Bad case Good(t) => Got(VTime(t), d))
    ensures id != -128 && id != -1 ==>
      Interp(mode, WExt(fixed, id, data), d) == if mode.registered(id, data) then Got(VExt(id, data), d) else Bad
  {
    hide FromBe, Time.Unpack;
  }

  /** What is read as a string or key: nil as the empty one, strings and byte strings alike. */
  lemma KeyForms(intern: bool, w: Wire, s: bytes, d: Dict)
    ensures StringOf(intern, WNil, d) == Got([], d)
    ensures StringOf(intern, WStr(s), d).Got? && StringOf(intern, WStr(s), d).val == s
    ensures StringOf(intern, WBin(s), d) == StringOf(intern, WStr(s), d)
    ensures !w.WNil? && !w.WStr? && !w.WBin? && !w.WExt? ==> StringOf(intern, w, d) == Bad
  {}

  // ---- the loose mode ----

  /** Every number takes 64 bits and every byte string is a string. */
  ghost predicate Wide(v: Value)
    decreases v
  {
    match v
    case VInt(k, _) => k == 8
    case VUint(k, _) => k == 8
    case VFloat(k, _) => k == 8
    case VBin(_) => false
    case VArr(vs) => forall i :: 0 <= i < |vs| ==> Wide(vs[i])
    case VMap(m) => forall k :: k in m ==> Wide(m[k])
    case _ => true
  }

  /** Loose reading yields wide values only. */
  lemma {:induction false} LooseIsWide(mode: Mode, w: Wire, d: Dict)
    requires mode.loose && Valid(w)
    ensures Interp(mode, w, d).Got? ==> Wide(Interp(mode, w, d).val)
    decreases w, 0
  {
    hide Time.Unpack, FromBe, Floats.Widen32, Pow256, Be;
    match w
    case WArr(ws) => LooseAllWide(mode, ws, d);
    case WMap(ws) => LooseEntriesWide(mode, ws, d);
    case _ =>
  }

  lemma {:induction false} LooseAllWide(mode: Mode, ws: seq<Wire>, d: Dict)
    requires mode.loose && ValidAll(ws)
    ensures InterpAll(mode, ws, d).Got? ==>
      forall i :: 0 <= i < |InterpAll(mode, ws, d).val| ==> Wide(InterpAll(mode, ws, d).val[i])
    decreases ws, 1
  {
    hide Interp, Wide, Valid;
    if ws == [] {
    } else if Interp(mode, ws[0], d).Got? {
      LooseIsWide(mode, ws[0], d);
      LooseAllWide(mode, ws[1..], Interp(mode, ws[0], d).dict);
    }
  }

  lemma {:induction false} LooseEntriesWide(mode: Mode, ws: seq<Wire>, d: Dict)
    requires mode.loose && ValidAll(ws)
    ensures InterpEntries(mode, ws, d).Got? ==>
      forall k :: k in InterpEntries(mode, ws, d).val ==> Wide(InterpEntries(mode, ws, d).val[k])
    decreases ws, 1
  {
    hide Interp, Wide, Valid, StringOf;
    if |ws| < 2 {
    } else {
      assert ws[1..][0] == ws[1] && ws[1..][1..] == ws[2..];
      if StringOf(mode.intern, ws[0], d).Got? {
        var d1 := StringOf(mode.intern, ws[0], d).dict;
        LooseIsWide(mode, ws[1], d1);
        if Interp(mode, ws[1], d1).Got? { LooseEntriesWide(mode, ws[2..], Interp(mode, ws[1], d1).dict); }
      }
    }
  }

  /** Widening keeps a number's value and whether it is signed, and a byte string's bytes. */
  lemma {:induction false} WideningKeeps(v: Value)
    ensures Alike(v, Widen(v))
    ensures (v.VInt? <==> Widen(v).VInt?) && (v.VUint? <==> Widen(v).VUint?) && (v.VFloat? <==> Widen(v).VFloat?)
    decreases v
  {
    hide Floats.Widen32;
    match v
    case VArr(vs) => WideningKeepsAll(vs);
    case VMap(m) => forall k | k in m ensures Alike(m[k], Widen(m[k])) { WideningKeeps(m[k]); }
    case _ =>
  }

  lemma {:induction false} WideningKeepsAll(vs: seq<Value>)
    ensures AllAlike(vs, WidenAll(vs))
    decreases vs
  {
    hide Alike, Widen;
    if vs == [] {
    } else {
      WideningKeeps(vs[0]);
      WideningKeepsAll(vs[1..]);
      assert vs == [vs[0]] + vs[1..];
    }
  }

  // ---- entries are stored one after another ----

  /** One more entry at the end of a map is one more store: it replaces an earlier one of the same
      key and leaves the others. */
  lemma {:induction false} LastEntryWins(mode: Mode, es: seq<Wire>, key: Wire, w: Wire, d: Dict)
    requires |es| % 2 == 0
    ensures InterpEntries(mode, es + [key, w], d)
         == (match InterpEntries(mode, es, d)
             case Bad => Bad
             case Got(m, d1) =>
               match StringOf(mode.intern, key, d1)
               case Bad => Bad
               case Got(k, d2) =>
                 match Interp(mode, w, d2)
                 case Bad => Bad
                 case Got(v, d3) => Got(m[k := v], d3))
    decreases es
  {
    hide Interp, StringOf;
    var all := es + [key, w];
    if es == [] {
      assert all == [key, w] && all[2..] == [];
      OneEntry(mode, key, w, d);
    } else {
      assert all[2..] == es[2..] + [key, w] && all[0] == es[0] && all[1] == es[1];
      if StringOf(mode.intern, es[0], d).Got? {
        var Got(k0, d0) := StringOf(mode.intern, es[0], d);
        if Interp(mode, es[1], d0).Got? {
          LastEntryWins(mode, es[2..], key, w, Interp(mode, es[1], d0).dict);
          StoreOrder(mode, es, k0, d0, key, w, d);
          var Got(v0, d1) := Interp(mode, es[1], d0);
          var tail := InterpEntries(mode, es[2..], d1);
          if tail.Got? && StringOf(mode.intern, key, tail.dict).Got? {
            var Got(k, d2) := StringOf(mode.intern, key, tail.dict);
            if Interp(mode, w, d2).Got? { StoredBehind(k0, v0, tail.val, k, Interp(mode, w, d2).val); }
          }
        }
      }
    }
  }

  lemma {:induction false} OneEntry(mode: Mode, key: Wire, w: Wire, d: Dict)
    ensures InterpEntries(mode, [], d) == Got(map[], d)
    ensures InterpEntries(mode, [key, w], d)
         == (match StringOf(mode.intern, key, d)
             case Bad => Bad
             case Got(k, d2) =>
               match Interp(mode, w, d2)
               case Bad => Bad
               case Got(v, d3) => Got(map[][k := v], d3))
  {
    hide Interp, StringOf;
    assert [key, w][2..] == [];
    if StringOf(mode.intern, key, d).Got? {
      var Got(k, d2) := StringOf(mode.intern, key, d);
      if Interp(mode, w, d2).Got? {
        var v := Interp(mode, w, d2).val;
        assert map[k := v] + map[] == map[][k := v];
      }
    }
  }

  lemma StoredBehind(k0: bytes, v0: Value, m: map<bytes, Value>, k: bytes, v: Value)
    ensures map[k0 := v0] + m[k := v] == (map[k0 := v0] + m)[k := v]
  {}

  /** An entry in front is stored before those behind it. */
  lemma StoreOrder(mode: Mode, es: seq<Wire>, k0: bytes, d0: Dict, key: Wire, w: Wire, d: Dict)
    requires |es| >= 2 && StringOf(mode.intern, es[0], d) == Got(k0, d0) && Interp(mode, es[1], d0).Got?
    ensures var r := Interp(mode, es[1], d0);
      && InterpEntries(mode, es, d) == Put(k0, r.val, InterpEntries(mode, es[2..], r.dict))
      && InterpEntries(mode, es + [key, w], d) == Put(k0, r.val, InterpEntries(mode, es[2..] + [key, w], r.dict))
  {
    hide Interp, StringOf;
    assert (es + [key, w])[2..] == es[2..] + [key, w];
  }

  // ---- whatever is decoded can be encoded ----

  ghost predicate ShortDict(d: Dict) { forall i :: 0 <= i < |d| ==> |d[i]| < MAX_LEN }

  /** A value decoded from any well-formed bytes is one the encoder takes, in every mode and with
      any dictionary; and its extensions are those a registered decoder accepts. */
  lemma {:induction false} DecodedIsEncodable(mode: Mode, w: Wire, d: Dict)
    requires Valid(w) && ShortDict(d)
    ensures Interp(mode, w, d).Got? ==>
      && Encodable(Interp(mode, w, d).val) && ExtsKnown(mode, Interp(mode, w, d).val)
      && ShortDict(Interp(mode, w, d).dict)
    decreases w, 0
  {
    hide ScalarOf, InterpAll, InterpEntries, Valid, ShortDict, Pow256;
    ValidItems(w);
    match w
    case WArr(ws) => DecodedAllEncodable(mode, ws, d);
    case WMap(ws) => DecodedEntriesEncodable(mode, ws, d);
    case _ => ScalarEncodable(mode, w, d);
  }

  lemma ValidItems(w: Wire)
    requires Valid(w)
    ensures w.WArr? ==> ValidAll(w.items) && |w.items| < MAX_LEN
    ensures w.WMap? ==> ValidAll(w.entries) && |w.entries| / 2 < MAX_LEN
  {}

  lemma ScalarEncodable(mode: Mode, w: Wire, d: Dict)
    requires Valid(w) && ShortDict(d) && !w.WArr? && !w.WMap?
    ensures var r := ScalarOf(mode, w, d);
      r.Got? ==> Encodable(r.val) && ExtsKnown(mode, r.val) && r.dict == d
  {
    hide Time.Unpack, FromBe, Floats.Widen32, Pow256, ShortDict, Lookup;
    match w
    case WFix(n) => PowValues();
    case WInt(k, n) => PowValues(); WiderInt(n, k);
    case WUint(k, n) => PowValues(); WiderUint(n, k);
    case WFloat(k, bits) => PowValues(); if k == 4 { WidenedPattern(bits); }
    case WExt(_, id, data) => TimeInRange(data); DictString(d, data);
    case _ =>
  }

  lemma WiderInt(n: int, k: nat)
    requires NumWidth(k) && InSigned(n, k)
    ensures InSigned(n, 8)
  {
    PowValues();
  }

  lemma WiderUint(n: int, k: nat)
    requires NumWidth(k) && 0 <= n < Pow256(k)
    ensures 0 <= n < Pow256(8)
  {
    PowValues();
  }

  lemma WidenedPattern(bits: nat)
    requires bits < Pow256(4)
    ensures Floats.Widen32(bits) < Pow256(8)
  {
    hide Floats.Widen32;
    PowValues();
    Floats.Widen32Special(bits);
  }

  lemma TimeInRange(data: bytes)
    ensures Time.Unpack(data).Good? ==> Time.InRange(Time.Unpack(data).t)
  {
    hide FromBe, Time.Unpack;
    PowValues();
    Time.UnpackMeans(data);
    if |data| == 4 { FromBeBound(data); }
  }

  lemma DictString(d: Dict, data: bytes)
    requires ShortDict(d)
    ensures Lookup(d, data).Got? ==> |Lookup(d, data).val| < MAX_LEN && Lookup(d, data).dict == d
  {
    hide FromBe;
  }

  lemma {:induction false} DecodedAllEncodable(mode: Mode, ws: seq<Wire>, d: Dict)
    requires ValidAll(ws) && ShortDict(d)
    ensures var r := InterpAll(mode, ws, d); r.Got? ==>
      && |r.val| == |ws| && ShortDict(r.dict)
      && forall i :: 0 <= i < |r.val| ==> Encodable(r.val[i]) && ExtsKnown(mode, r.val[i])
    decreases ws, 1
  {
    hide Interp, Encodable, ExtsKnown, Valid, ShortDict;
    if ws == [] {
    } else if Interp(mode, ws[0], d).Got? {
      DecodedIsEncodable(mode, ws[0], d);
      DecodedAllEncodable(mode, ws[1..], Interp(mode, ws[0], d).dict);
    }
  }

  lemma {:induction false} DecodedEntriesEncodable(mode: Mode, ws: seq<Wire>, d: Dict)
    requires ValidAll(ws) && ShortDict(d)
    ensures var r := InterpEntries(mode, ws, d); r.Got? ==>
      && 2 * |r.val| <= |ws| && ShortDict(r.dict)
      && forall k :: k in r.val ==> |k| < MAX_LEN && Encodable(r.val[k]) && ExtsKnown(mode, r.val[k])
    decreases ws, 1
  {
    hide Interp, Encodable, ExtsKnown, Valid, ShortDict, StringOf;
    if |ws| < 2 {
    } else {
      assert ws[1..][0] == ws[1] && ws[1..][1..] == ws[2..];
      var key := StringOf(mode.intern, ws[0], d);
      ShortKey(mode.intern, ws[0], d);
      if key.Got? && Interp(mode, ws[1], key.dict).Got? {
        var Got(v, d2) := Interp(mode, ws[1], key.dict);
        DecodedIsEncodable(mode, ws[1], key.dict);
        DecodedEntriesEncodable(mode, ws[2..], d2);
        if InterpEntries(mode, ws[2..], d2).Got? {
          StoredSize(key.val, v, InterpEntries(mode, ws[2..], d2).val);
        }
      }
    }
  }

  lemma StoredSize(k: bytes, v: Value, m: map<bytes, Value>)
    ensures |map[k := v] + m| <= 1 + |m|
  {
    var u := map[k := v] + m;
    assert u.Keys == {k} + m.Keys;
    assert |u| == |u.Keys| && |m| == |m.Keys|;
  }

  lemma ShortKey(intern: bool, w: Wire, d: Dict)
    requires Valid(w) && ShortDict(d)
    ensures StringOf(intern, w, d).Got? ==>
      |StringOf(intern, w, d).val| < MAX_LEN && ShortDict(StringOf(intern, w, d).dict)
  {
    hide FromBe, Pow256;
  }
}
