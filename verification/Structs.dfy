/**
 Struct decoding from a map body. Struct fields are an abstract table of names; a field holds
 what the interface decoder makes of its value.
 */
module Structs {
  import opened Bytes
  import opened Buffers
  import opened Wire
  import opened Bounds
  import opened Value
  import opened Decoders
  import opened Meanings

  type Fields = map<bytes, Value>

  /** The fields a map body sets. Entries of other names are passed over unread, or refused
      when unknown names are disallowed. */
  function FieldsOf(mode: Mode, names: set<bytes>, disallow: bool, ws: seq<Wire>, dict: Dict): Got<Fields>
    decreases ws
  {
    if |ws| < 2 then Got(map[], dict) else
    match StringOf(mode.intern, ws[0], dict)
    case Bad => Bad
    case Got(k, d) =>
      if k in names then
        match Interp(mode, ws[1], d)
        case Bad => Bad
        case Got(v, d') => Put(k, v, FieldsOf(mode, names, disallow, ws[2..], d'))
      else if disallow then Bad
      else FieldsOf(mode, names, disallow, ws[2..], d)
  }

  /** One more entry at the end of a body: a field of that name is stored, replacing an earlier
      entry of the same name; any other name is passed over, or is an error when unknown names
      are disallowed. */
  lemma {:induction false} LastFieldWins(mode: Mode, names: set<bytes>, disallow: bool, ws: seq<Wire>, key: Wire,
      w: Wire, dict: Dict)
    requires |ws| % 2 == 0
    ensures FieldsOf(mode, names, disallow, ws + [key, w], dict)
         == (match FieldsOf(mode, names, disallow, ws, dict)
             case Bad => Bad
             case Got(m, d1) =>
               match StringOf(mode.intern, key, d1)
               case Bad => Bad
               case Got(k, d2) =>
                 if k in names then
                   match Interp(mode, w, d2)
                   case Bad => Bad
                   case Got(v, d3) => Got(m[k := v], d3)
                 else if disallow then Bad
                 else Got(m, d2))
    decreases ws
  {
    hide Interp, StringOf;
    var all := ws + [key, w];
    if ws == [] {
      assert all == [key, w] && all[2..] == [];
      FieldsPair(mode, names, disallow, key, w, [], dict);
      assert [key, w] + [] == [key, w];
      OneField(mode, names, disallow, key, w, dict);
    } else {
      assert all[2..] == ws[2..] + [key, w] && all[0] == ws[0] && all[1] == ws[1];
      if StringOf(mode.intern, ws[0], dict).Got? {
        var Got(k0, d0) := StringOf(mode.intern, ws[0], dict);
        if k0 in names && Interp(mode, ws[1], d0).Got? {
          var Got(v0, d1) := Interp(mode, ws[1], d0);
          LastFieldWins(mode, names, disallow, ws[2..], key, w, d1);
          var tail := FieldsOf(mode, names, disallow, ws[2..], d1);
          if tail.Got? && StringOf(mode.intern, key, tail.dict).Got? {
            var Got(k, d2) := StringOf(mode.intern, key, tail.dict);
            if Interp(mode, w, d2).Got? { StoredBehind(k0, v0, tail.val, k, Interp(mode, w, d2).val); }
          }
        } else if k0 !in names {
          LastFieldWins(mode, names, disallow, ws[2..], key, w, d0);
        }
      }
    }
  }

  lemma OneField(mode: Mode, names: set<bytes>, disallow: bool, key: Wire, w: Wire, dict: Dict)
    ensures FieldsOf(mode, names, disallow, [], dict) == Got(map[], dict)
    ensures StringOf(mode.intern, key, dict).Got? ==>
      var Got(k, d2) := StringOf(mode.intern, key, dict);
      Interp(mode, w, d2).Got? ==> map[k := Interp(mode, w, d2).val] + map[] == map[][k := Interp(mode, w, d2).val]
  {
    hide Interp, StringOf;
  }

  function StructAt(mode: Mode, names: set<bytes>, disallow: bool, input: bytes, pos: nat, n: nat,
                    lim: Limits, dict: Dict): Dec<Fields>
  {
    match RowAt(input, pos, 2 * n, lim)
    case Err => Fail
    case Ok(ws, e) => Finish(FieldsOf(mode, names, disallow, ws, dict), e)
  }

  // ---- the loop ----

  /** n entries of a map body, stored into the fields of v; a nil body, told by -1, zeroes the
      struct. */
  method DecodeStruct(d: Decoder, names: set<bytes>, v: Fields, n: int) returns (r: Option<Fields>)
    requires d.Valid() && n >= -1
    modifies d`pos, d`buf, d`rec, d`dict, d`depth
    ensures d.Valid() && d.depth == old(d.depth)
    ensures n == -1 ==> r == Some(map[]) && d.pos == old(d.pos) && d.dict == old(d.dict)
    ensures n >= 0 ==>
      Yields(r, d.pos, d.dict,
             Under(v, StructAt(d.CurrentMode(), names, d.disallowUnknown, d.input, old(d.pos), n,
                               old(d.Below()), old(d.dict))))
  {
    hide StructAt, StringAt, DecodeAt, BoundedAt, Under;
    if n == -1 {
      return Some(map[]);
    }
    ghost var mode, lim := d.CurrentMode(), d.Below();
    ghost var all := Under(v, StructAt(mode, names, d.disallowUnknown, d.input, d.pos, n, lim, d.dict));
    var m := v;
    var i: nat := 0;
    while i < n
      invariant i <= n && d.Valid() && d.depth == old(d.depth)
      invariant all == Under(m, StructAt(mode, names, d.disallowUnknown, d.input, d.pos, n - i, lim, d.dict))
    {
      StructNext(m, mode, names, d.disallowUnknown, d.input, d.pos, n - i, lim, d.dict);
      var name := d.DecodeStringTemp();
      if name.None? {
        return None;
      }
      if name.value in names {
        var x := d.DecodeInterfaceCond();
        if x.None? {
          return None;
        }
        m := m[name.value := x.value];
      } else {
        if d.disallowUnknown {
          return None;
        }
        var ok := d.Skip();
        if !ok {
          return None;
        }
      }
      i := i + 1;
    }
    StructDone(m, mode, names, d.disallowUnknown, d.input, d.pos, lim, d.dict);
    return Some(m);
  }

  lemma StructDone(m: Fields, mode: Mode, names: set<bytes>, disallow: bool, input: bytes, pos: nat,
      lim: Limits, dict: Dict)
    requires lim.room >= 0
    ensures Under(m, StructAt(mode, names, disallow, input, pos, 0, lim, dict)) == Done(m, pos, dict)
  {
    hide RowAt;
    RowEmpty(input, pos, lim);
    assert m + map[] == m;
  }

  lemma {:induction false} FieldsPair(mode: Mode, names: set<bytes>, disallow: bool, k: Wire, v: Wire,
      ws: seq<Wire>, dict: Dict)
    ensures FieldsOf(mode, names, disallow, [k, v] + ws, dict)
         == (match StringOf(mode.intern, k, dict)
             case Bad => Bad
             case Got(s, d) =>
               if s in names then
                 match Interp(mode, v, d)
                 case Bad => Bad
                 case Got(x, d') => Put(s, x, FieldsOf(mode, names, disallow, ws, d'))
               else if disallow then Bad
               else FieldsOf(mode, names, disallow, ws, d))
  {
    hide Interp, StringOf;
    assert ([k, v] + ws)[2..] == ws;
  }

  /** One entry of the body, in the three ways it can go. */
  lemma {:induction false} StructStep(mode: Mode, names: set<bytes>, disallow: bool, input: bytes,
      pos: nat, n: nat, lim: Limits, dict: Dict)
    requires n > 0
    ensures StructAt(mode, names, disallow, input, pos, n, lim, dict)
         == (match StringAt(mode.intern, input, pos, dict)
             case Fail => Fail
             case Done(k, p, d) =>
               if k in names then
                 match DecodeAt(mode, input, p, lim, d)
                 case Fail => Fail
                 case Done(v, q, e) => Under(map[k := v], StructAt(mode, names, disallow, input, q, n - 1, lim, e))
               else if disallow then Fail
               else
                 match BoundedAt(input, p, lim)
                 case Err => Fail
                 case Ok(_, q) => StructAt(mode, names, disallow, input, q, n - 1, lim, d))
  {
    hide BoundedAt, RowAt, Interp, FieldsOf, StringOf, StringAt;
    RowPair(input, pos, 2 * n, lim);
    assert 2 * n - 2 == 2 * (n - 1);
    if lim.room < 1 {
      RoomNeeded(input, lim);
    } else {
      StringBounded(mode.intern, input, pos, lim, dict);
      if RowAt(input, pos, 2 * n, lim).Ok? {
        var key := BoundedAt(input, pos, lim);
        var value := BoundedAt(input, key.end, lim);
        FieldsPair(mode, names, disallow, key.val, value.val, RowAt(input, value.end, 2 * (n - 1), lim).val, dict);
      }
    }
  }

  lemma {:induction false} StructNext(m: Fields, mode: Mode, names: set<bytes>, disallow: bool,
      input: bytes, pos: nat, n: nat, lim: Limits, dict: Dict)
    requires n > 0
    ensures var all := Under(m, StructAt(mode, names, disallow, input, pos, n, lim, dict));
      match StringAt(mode.intern, input, pos, dict)
      case Fail => all == Fail
      case Done(k, p, d) =>
        if k in names then
          match DecodeAt(mode, input, p, lim, d)
          case Fail => all == Fail
          case Done(v, q, e) => all == Under(m[k := v], StructAt(mode, names, disallow, input, q, n - 1, lim, e))
        else if disallow then all == Fail
        else
          match BoundedAt(input, p, lim)
          case Err => all == Fail
          case Ok(_, q) => all == Under(m, StructAt(mode, names, disallow, input, q, n - 1, lim, d))
  {
    hide StructAt, StringAt, DecodeAt, BoundedAt;
    StructStep(mode, names, disallow, input, pos, n, lim, dict);
    if StringAt(mode.intern, input, pos, dict).Done? {
      var key := StringAt(mode.intern, input, pos, dict);
      if key.val in names && DecodeAt(mode, input, key.end, lim, key.dict).Done? {
        var x := DecodeAt(mode, input, key.end, lim, key.dict);
        UnderTwice(m, key.val, x.val, StructAt(mode, names, disallow, input, x.end, n - 1, lim, x.dict));
      }
    }
  }

  // ---- unknown fields leave no trace ----

  predicate Unknown(names: set<bytes>, key: Wire, dict: Dict) {
    StringOf(false, key, dict).Got? && StringOf(false, key, dict).val !in names
  }

  /** The body without its unknown entries. */
  function Known(names: set<bytes>, ws: seq<Wire>, dict: Dict): seq<Wire>
    decreases ws
  {
    if |ws| < 2 then []
    else if Unknown(names, ws[0], dict) then Known(names, ws[2..], dict)
    else ws[..2] + Known(names, ws[2..], dict)
  }

  lemma {:induction false} FieldsOfKnown(mode: Mode, names: set<bytes>, ws: seq<Wire>, dict: Dict)
    requires !mode.intern
    ensures FieldsOf(mode, names, false, ws, dict) == FieldsOf(mode, names, false, Known(names, ws, dict), dict)
    decreases ws
  {
    hide Interp, StringOf;
    if |ws| < 2 {
    } else {
      KeepsDict(mode, ws[0], ws[1], dict);
      FieldsOfKnown(mode, names, ws[2..], dict);
      assert ws == [ws[0], ws[1]] + ws[2..] && ws[..2] == [ws[0], ws[1]];
      FieldsPair(mode, names, false, ws[0], ws[1], ws[2..], dict);
      FieldsPair(mode, names, false, ws[0], ws[1], Known(names, ws[2..], dict), dict);
    }
  }

  lemma KeepsDict(mode: Mode, k: Wire, v: Wire, dict: Dict)
    requires !mode.intern
    ensures StringOf(false, k, dict).Got? ==> StringOf(false, k, dict).dict == dict
    ensures Interp(mode, v, dict).Got? ==> Interp(mode, v, dict).dict == dict
  {
    hide Interp;
    DictStays(mode, v, dict);
  }

  lemma {:induction false} KnownConcat(names: set<bytes>, a: seq<Wire>, b: seq<Wire>, dict: Dict)
    requires |a| % 2 == 0
    ensures Known(names, a + b, dict) == Known(names, a, dict) + Known(names, b, dict)
    decreases a
  {
    hide Unknown;
    if a == [] {
      assert a + b == b;
    } else {
      KnownConcat(names, a[2..], b, dict);
      assert (a + b)[2..] == a[2..] + b && (a + b)[..2] == a[..2] && (a + b)[0] == a[0];
    }
  }

  /** A row of entries with unknown names only. */
  ghost predicate AllUnknown(names: set<bytes>, ws: seq<Wire>, dict: Dict) {
    |ws| % 2 == 0 && Known(names, ws, dict) == []
  }

  /** With interning off, from any dictionary, and unknown fields allowed, entries of unknown names inserted anywhere
      in a body, in any number and with any values that fit the limits, leave the decoded fields
      as they were; and the decoder still stops exactly at the end of the body, where the
      trailing bytes begin. */
  lemma UnknownFieldsIgnored(mode: Mode, names: set<bytes>, a: seq<Wire>, extra: seq<Wire>, b: seq<Wire>,
                             before: bytes, after: bytes, lim: Limits, dict: Dict)
    requires !mode.intern && |a| % 2 == 0 && |b| % 2 == 0 && AllUnknown(names, extra, dict)
    requires ValidAll(a + b) && ValidAll(a + extra + b) && FitsAll(extra, lim.room, lim.cap)
    ensures var small := before + EmitAll(a + b) + after;
      var large := before + EmitAll(a + extra + b) + after;
      var r := StructAt(mode, names, false, small, |before|, |a + b| / 2, lim, dict);
      var s := StructAt(mode, names, false, large, |before|, |a + extra + b| / 2, lim, dict);
      && (r.Done? <==> s.Done?)
      && (r.Done? ==> r.val == s.val && r.dict == s.dict)
      && (r.Done? ==> r.end == |small| - |after| && s.end == |large| - |after|)
  {
    hide EmitAll, FieldsOf, StructAt, ValidAll, FitsAll, AllUnknown;
    EvenRow(names, extra, dict);
    assert |a + extra + b| == |a| + |extra| + |b|;
    BodyAt(mode, names, a + b, before, after, lim, dict);
    BodyAt(mode, names, a + extra + b, before, after, lim, dict);
    SameFields(mode, names, a, extra, b, dict);
    SameFit(a, extra, b, lim);
  }

  lemma EvenRow(names: set<bytes>, ws: seq<Wire>, dict: Dict)
    requires AllUnknown(names, ws, dict)
    ensures |ws| % 2 == 0
  {}

  /** The two bodies set the same fields. */
  lemma SameFields(mode: Mode, names: set<bytes>, a: seq<Wire>, extra: seq<Wire>, b: seq<Wire>, dict: Dict)
    requires !mode.intern && |a| % 2 == 0 && AllUnknown(names, extra, dict)
    ensures FieldsOf(mode, names, false, a + b, dict) == FieldsOf(mode, names, false, a + extra + b, dict)
  {
    hide FieldsOf, Known;
    KnownConcat(names, a, b, dict);
    KnownConcat(names, a + extra, b, dict);
    KnownConcat(names, a, extra, dict);
    assert Known(names, a, dict) + [] == Known(names, a, dict);
    FieldsOfKnown(mode, names, a + b, dict);
    FieldsOfKnown(mode, names, a + extra + b, dict);
  }

  /** The two bodies fit the limits together. */
  lemma SameFit(a: seq<Wire>, extra: seq<Wire>, b: seq<Wire>, lim: Limits)
    requires FitsAll(extra, lim.room, lim.cap)
    ensures FitsAll(a + b, lim.room, lim.cap) <==> FitsAll(a + extra + b, lim.room, lim.cap)
  {
    hide FitsAll;
    FitsConcat(a, b, lim);
    FitsConcat(a + extra, b, lim);
    FitsConcat(a, extra, lim);
  }

  /** A body in its place decodes to what its entries mean. */
  lemma BodyAt(mode: Mode, names: set<bytes>, ws: seq<Wire>, before: bytes, after: bytes, lim: Limits, dict: Dict)
    requires |ws| % 2 == 0 && ValidAll(ws)
    ensures StructAt(mode, names, false, before + EmitAll(ws) + after, |before|, |ws| / 2, lim, dict)
         == if FitsAll(ws, lim.room, lim.cap)
            then Finish(FieldsOf(mode, names, false, ws, dict), |before| + |EmitAll(ws)|) else Fail
  {
    hide EmitAll, ParseSeq, FieldsOf, ValidAll, HeightAll, WidthAll;
    var input := before + EmitAll(ws) + after;
    assert input[|before|..|before| + |EmitAll(ws)|] == EmitAll(ws);
    ParseEmitAll(input, |before|, ws);
    assert 2 * (|ws| / 2) == |ws|;
  }

  lemma {:induction false} FitsConcat(a: seq<Wire>, b: seq<Wire>, lim: Limits)
    ensures FitsAll(a + b, lim.room, lim.cap) <==> FitsAll(a, lim.room, lim.cap) && FitsAll(b, lim.room, lim.cap)
    decreases a
  {
    hide Height, Width;
    if a == [] {
      assert a + b == b;
    } else {
      FitsConcat(a[1..], b, lim);
      assert (a + b)[1..] == a[1..] + b && (a + b)[0] == a[0];
    }
  }
}
