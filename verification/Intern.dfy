/**
 String interning: the encoder's dictionary (a map from strings to indexes) and the decoder's
 (a list of strings) are never exchanged; each grows as strings go by, by its own mode.
 */
module Intern {
  import opened Bytes
  import opened Buffers
  import opened Wire
  import opened Value
  import Format

  type EncDict = map<bytes, nat>

  /** Every index can be written in four bytes. */
  ghost predicate Small(enc: EncDict) { forall s :: s in enc ==> enc[s] < MAX_LEN }

  /** A reference to a dictionary index, in the shortest of the three ext forms. */
  function Reference(idx: nat): Wire {
    WExt(true, INTERNED_ID, Be(idx, if idx <= 0xff then 1 else if idx <= 0xffff then 2 else 4))
  }

  /** What is sent for s: a reference if s is known, the string itself otherwise. */
  function Sent(enc: EncDict, s: bytes): Wire {
    if s in enc then Reference(enc[s]) else WStr(s)
  }

  /** Long enough to be worth an index, and there is an index left. */
  predicate Learnable(size: nat, s: bytes) { |s| >= MIN_INTERNED_LEN && size < MAX_DICT_LEN }

  /** What sending s leaves behind. */
  function Learn(enc: EncDict, intern: bool, s: bytes): EncDict {
    if s !in enc && intern && Learnable(|enc|, s) then enc[s := |enc|] else enc
  }

  /** The list is the exact inverse of the map: both are one-to-one and of one size. */
  ghost predicate Inverse(enc: EncDict, dec: Dict) {
    && |enc| == |dec|
    && (forall i :: 0 <= i < |dec| ==> dec[i] in enc && enc[dec[i]] == i)
    && (forall s :: s in enc ==> enc[s] < |dec| && dec[enc[s]] == s)
  }

  lemma ReferenceData(idx: nat)
    requires idx < MAX_LEN
    ensures Valid(Reference(idx))
    ensures InternLen(|Reference(idx).data|) && FromBe(Reference(idx).data) == idx
  {
    hide Be, FromBe, Pow256;
    PowValues();
    FromBeOfBe(idx, |Reference(idx).data|);
  }

  /** No other reference to the same index has a shorter payload. */
  lemma ReferenceShortest(idx: nat, data: bytes)
    requires idx < MAX_LEN && InternLen(|data|) && FromBe(data) == idx
    ensures |Reference(idx).data| <= |data|
  {
    hide Be, FromBe;
    PowValues();
    FromBeBound(data);
  }

  /** References by their bytes: a fixed extension of type -128 with the index in one, two or four
      bytes. */
  lemma ReferenceBytes(idx: nat)
    requires idx < MAX_LEN
    ensures Valid(Reference(idx))
    ensures Emit(Reference(idx)) ==
      if idx <= 255 then [0xd4, 0x80, idx]
      else if idx <= 65535 then [0xd5, 0x80] + Format.Two(idx)
      else [0xd6, 0x80] + Format.Four(idx)
  {
    hide Be, FromBe, Format.Two, Format.Four;
    ReferenceData(idx);
    Format.Spelled(idx);
    if idx > 65535 { assert Emit(Reference(idx)) == [0xd6] + [0x80] + Format.Four(idx); }
  }

  /** Whatever the width of its payload, a reference is to the string at that index; any other
      payload length is refused. */
  lemma AnyReference(intern: bool, data: bytes, dec: Dict)
    requires intern || dec != []
    ensures StringOf(intern, WExt(true, -128, data), dec)
         == if |data| in {1, 2, 4} && FromBe(data) < |dec| then Got(dec[FromBe(data)], dec) else Bad
    ensures StringOf(intern, WExt(false, -128, data), dec) == Bad
  {
    hide FromBe;
  }

  /** Both sides learn a string in interning mode, unless it is known to the encoder, from three
      bytes on, and up to 65535 entries. */
  lemma Thresholds(enc: EncDict, dec: Dict, s: bytes)
    ensures Remember(false, dec, s) == dec && Learn(enc, false, s) == enc
    ensures |s| <= 2 || |dec| >= 65535 ==> Remember(true, dec, s) == dec
    ensures |s| >= 3 && |dec| <= 65534 ==> Remember(true, dec, s) == dec + [s]
    ensures |s| <= 2 || |enc| >= 65535 || s in enc ==> Learn(enc, true, s) == enc
    ensures |s| >= 3 && |enc| <= 65534 && s !in enc ==> Learn(enc, true, s) == enc[s := |enc|]
  {}

  /** A reference read against a list: the entry, or nothing beyond its end. */
  lemma ReferenceRead(intern: bool, idx: nat, dec: Dict)
    requires idx < MAX_LEN
    ensures StringOf(intern, Reference(idx), dec) == if idx < |dec| then Got(dec[idx], dec) else Bad
  {
    hide Be, FromBe;
    ReferenceData(idx);
  }

  lemma SentValid(enc: EncDict, intern: bool, s: bytes)
    requires Small(enc) && |s| < MAX_LEN
    ensures Valid(Sent(enc, s)) && Small(Learn(enc, intern, s))
  {
    hide Be, FromBe;
    if s in enc { ReferenceData(enc[s]); }
  }

  lemma InverseSmall(enc: EncDict, dec: Dict)
    requires Inverse(enc, dec) && |dec| <= MAX_LEN
    ensures Small(enc)
  {}

  // ---- one string ----

  /** A string, the mode it is sent in and the mode it is read in. */
  datatype Item = Item(s: bytes, send: bool, read: bool)

  /** The two modes agree, or it makes no difference because s would not be learned anyway. */
  predicate Agree(enc: EncDict, item: Item) {
    item.send == item.read || item.s in enc || !Learnable(|enc|, item.s)
  }

  /** One string, one step of each machine: the string arrives whatever the modes, and the
      dictionaries are inverse to each other afterwards exactly when the modes agree or make
      no difference. */
  lemma InternStep(enc: EncDict, dec: Dict, item: Item)
    requires Inverse(enc, dec) && |dec| <= MAX_LEN && |item.s| < MAX_LEN
    ensures Valid(Sent(enc, item.s))
    ensures var r := StringOf(item.read, Sent(enc, item.s), dec);
      && r.Got? && r.val == item.s
      && (Inverse(Learn(enc, item.send, item.s), r.dict) <==> Agree(enc, item))
    ensures |Learn(enc, item.send, item.s)| <= MAX_LEN
  {
    hide Be, FromBe;
    InverseSmall(enc, dec);
    SentValid(enc, item.send, item.s);
    if item.s in enc { ReferenceRead(item.read, enc[item.s], dec); }
  }

  // ---- runs ----

  ghost predicate Sendable(items: seq<Item>) {
    forall i :: 0 <= i < |items| ==> |items[i].s| < MAX_LEN
  }

  /** The modes agree wherever they make a difference, all along a run. */
  predicate InStep(enc: EncDict, items: seq<Item>)
    decreases items
  {
    items == [] || (Agree(enc, items[0]) && InStep(Learn(enc, items[0].send, items[0].s), items[1..]))
  }

  /** The encoder's dictionary after a run. */
  function LearnAll(enc: EncDict, items: seq<Item>): EncDict
    decreases items
  {
    if items == [] then enc else LearnAll(Learn(enc, items[0].send, items[0].s), items[1..])
  }

  /** Both machines, string by string: what the decoder makes of what the encoder sends. */
  function Exchange(enc: EncDict, dec: Dict, items: seq<Item>): Got<seq<bytes>>
    decreases items
  {
    if items == [] then Got([], dec) else
    match StringOf(items[0].read, Sent(enc, items[0].s), dec)
    case Bad => Bad
    case Got(s, d) => After(s, Exchange(Learn(enc, items[0].send, items[0].s), d, items[1..]))
  }

  function After(s: bytes, r: Got<seq<bytes>>): Got<seq<bytes>> {
    match r case Bad => Bad case Got(ss, d) => Got([s] + ss, d)
  }

  function Strings(items: seq<Item>): seq<bytes> {
    if items == [] then [] else [items[0].s] + Strings(items[1..])
  }

  /** A run in step delivers its strings and keeps the dictionaries inverse, past the size cap
      and from any shared one-to-one dictionary. */
  lemma {:induction false} InStepDelivers(enc: EncDict, dec: Dict, items: seq<Item>)
    requires Inverse(enc, dec) && |dec| <= MAX_LEN && Sendable(items) && InStep(enc, items)
    ensures var r := Exchange(enc, dec, items);
      r.Got? && r.val == Strings(items) && Inverse(LearnAll(enc, items), r.dict) && |r.dict| <= MAX_LEN
    decreases items
  {
    hide Sent, StringOf, Learn, Agree, Inverse;
    if items == [] {
    } else {
      InternStep(enc, dec, items[0]);
      var enc', dec' := Learn(enc, items[0].send, items[0].s), StringOf(items[0].read, Sent(enc, items[0].s), dec).dict;
      InverseSize(enc', dec');
      InStepDelivers(enc', dec', items[1..]);
    }
  }

  lemma InverseSize(enc: EncDict, dec: Dict)
    requires Inverse(enc, dec)
    ensures |dec| == |enc|
  {}

  /** The dictionaries are inverse to each other before and after every string of a run. */
  ghost predicate AlwaysInverse(enc: EncDict, dec: Dict, items: seq<Item>)
    decreases items
  {
    && Inverse(enc, dec)
    && (items == [] ||
        (match StringOf(items[0].read, Sent(enc, items[0].s), dec)
         case Bad => false
         case Got(_, d) => AlwaysInverse(Learn(enc, items[0].send, items[0].s), d, items[1..])))
  }

  /** The dictionaries stay inverse at every step exactly when the run is in step. */
  lemma {:induction false} InverseThroughout(enc: EncDict, dec: Dict, items: seq<Item>)
    requires Inverse(enc, dec) && |dec| <= MAX_LEN && Sendable(items)
    ensures AlwaysInverse(enc, dec, items) <==> InStep(enc, items)
    decreases items
  {
    hide Sent, StringOf, Learn, Agree, Inverse;
    if items == [] {
    } else {
      InternStep(enc, dec, items[0]);
      if Agree(enc, items[0]) {
        var enc' := Learn(enc, items[0].send, items[0].s);
        var dec' := StringOf(items[0].read, Sent(enc, items[0].s), dec).dict;
        InverseSize(enc', dec');
        InverseThroughout(enc', dec', items[1..]);
      }
    }
  }

  // ---- what goes wrong out of step ----

  /** The decoder learned a string the encoder did not: the next string learned by both is
      read as that other string when it is sent again, with no error. */
  lemma SilentCorruption(enc: EncDict, dec: Dict, s: bytes, t: bytes)
    requires Inverse(enc, dec) && Learnable(|enc|, s) && Learnable(|enc|, t)
    requires s !in enc && t !in enc && s != t
    ensures var r := Exchange(enc, dec, [Item(s, false, true), Item(t, true, true), Item(t, true, true)]);
      r.Got? && r.val == [s, t, s]
  {
    hide Inverse, Reference;
    InverseSize(enc, dec);
    var a, b := Item(s, false, true), Item(t, true, true);
    assert [a, b, b][1..] == [b, b] && [b, b][1..] == [b] && [b][1..] == [];
    var enc1 := Learn(enc, true, t);
    assert Sent(enc, s) == WStr(s) && Sent(enc, t) == WStr(t) && Sent(enc1, t) == Reference(|enc|);
    var dec1 := Remember(true, dec, s);
    var dec2 := Remember(true, dec1, t);
    assert dec2[|enc|] == s;
    ReferenceRead(true, |enc|, dec2);
    assert Exchange(enc1, dec2, [b]) == After(s, Got([], dec2)) && [s] + [] == [s];
    assert Exchange(enc, dec1, [b, b]) == Got([t] + [s], dec2);
    assert [s] + ([t] + [s]) == [s, t, s];
  }

  /** The encoder learned a string the decoder did not: the string is lost when sent again. */
  lemma EncoderAhead(enc: EncDict, dec: Dict, s: bytes, again: Item)
    requires Inverse(enc, dec) && Learnable(|enc|, s) && s !in enc && again.s == s
    ensures Exchange(enc, dec, [Item(s, true, false), again]) == Bad
  {
    hide Inverse, Reference;
    InverseSize(enc, dec);
    var a := Item(s, true, false);
    assert [a, again][1..] == [again];
    var enc1 := Learn(enc, true, s);
    assert Sent(enc1, s) == Reference(|enc|);
    ReferenceRead(again.read, |enc|, dec);
    assert Exchange(enc1, dec, [again]) == Bad;
  }

  predicate Delivered(enc: EncDict, dec: Dict, items: seq<Item>) {
    Exchange(enc, dec, items).Got? && Exchange(enc, dec, items).val == Strings(items)
  }

  ghost predicate Matching(items: seq<Item>) {
    forall i :: 0 <= i < |items| ==> items[i].send == items[i].read
  }

  /** From any point of the run on, whatever is sent next in matching modes is delivered. */
  ghost predicate Reliable(enc: EncDict, dec: Dict, items: seq<Item>) {
    forall k: nat, more: seq<Item> :: k <= |items| && Sendable(more) && Matching(more) ==>
      Delivered(enc, dec, items[..k] + more)
  }

  lemma {:induction false} MatchingInStep(enc: EncDict, more: seq<Item>)
    requires Matching(more)
    ensures InStep(enc, more)
    decreases more
  {
    if more != [] { MatchingInStep(Learn(enc, more[0].send, more[0].s), more[1..]); }
  }

  lemma {:induction false} PrefixInStep(enc: EncDict, items: seq<Item>, k: nat, more: seq<Item>)
    requires InStep(enc, items) && k <= |items| && Matching(more)
    ensures InStep(enc, items[..k] + more)
    decreases items
  {
    hide Learn, Agree;
    if k == 0 {
      assert items[..k] + more == more;
      MatchingInStep(enc, more);
    } else {
      PrefixInStep(Learn(enc, items[0].send, items[0].s), items[1..], k - 1, more);
      assert (items[..k] + more)[1..] == items[1..][..k - 1] + more;
    }
  }

  /** Among n + 1 four-byte strings one is not in a set of n. */
  lemma {:induction false} FreshString(used: set<bytes>, n: nat) returns (t: bytes)
    requires |used| <= n < MAX_LEN
    ensures t !in used && |t| == 4
    ensures exists k: nat :: k <= n && t == Be(k, 4)
    decreases n
  {
    hide Be;
    t := Be(n, 4);
    if t in used {
      var fewer := used - {t};
      var t' := FreshString(fewer, n - 1);
      var k: nat :| k <= n - 1 && t' == Be(k, 4);
      FourBytes(k, n);
      t := t';
    }
  }

  lemma FourBytes(k: nat, n: nat)
    requires k < n < MAX_LEN
    ensures Be(k, 4) != Be(n, 4)
  {
    hide Be, FromBe;
    PowValues();
    FromBeOfBe(k, 4);
    FromBeOfBe(n, 4);
  }

  /** Out of step at the first string: some continuation goes wrong. */
  lemma StepUndone(enc: EncDict, dec: Dict, item: Item) returns (more: seq<Item>)
    requires Inverse(enc, dec) && |dec| <= MAX_LEN && |item.s| < MAX_LEN && !Agree(enc, item)
    ensures Sendable(more) && Matching(more) && !Delivered(enc, dec, [item] + more)
  {
    hide Exchange, Inverse, Be;
    var s := item.s;
    if item.send {
      more := [Item(s, true, true)];
      assert [item] + more == [item, more[0]];
      EncoderAhead(enc, dec, s, more[0]);
    } else {
      var t := FreshString(enc.Keys + {s}, |enc| + 1);
      more := [Item(t, true, true), Item(t, true, true)];
      assert [item] + more == [item, more[0], more[1]];
      SilentCorruption(enc, dec, s, t);
      ThreeStrings(item, more[0], more[1]);
    }
  }

  lemma ThreeStrings(a: Item, b: Item, c: Item)
    ensures |Strings([a, b, c])| == 3 && Strings([a, b, c])[2] == c.s
  {
    assert [a, b, c][1..] == [b, c] && [b, c][1..] == [c] && [c][1..] == [];
    assert Strings([b, c]) == [b.s] + Strings([c]);
  }

  lemma {:induction false} RunUndone(enc: EncDict, dec: Dict, items: seq<Item>) returns (k: nat, more: seq<Item>)
    requires Inverse(enc, dec) && |dec| <= MAX_LEN && Sendable(items) && !InStep(enc, items)
    ensures k <= |items| && Sendable(more) && Matching(more) && !Delivered(enc, dec, items[..k] + more)
    decreases items
  {
    hide Sent, StringOf, Learn, Agree, Inverse;
    if Agree(enc, items[0]) {
      InternStep(enc, dec, items[0]);
      var enc', dec' := Learn(enc, items[0].send, items[0].s), StringOf(items[0].read, Sent(enc, items[0].s), dec).dict;
      InverseSize(enc', dec');
      k, more := RunUndone(enc', dec', items[1..]);
      var run := items[..k + 1] + more;
      assert run[1..] == items[1..][..k] + more && run[0] == items[0];
      UndoneBehind(enc, dec, run);
      k := k + 1;
    } else {
      more := StepUndone(enc, dec, items[0]);
      k := 1;
      assert items[..k] == [items[0]];
    }
  }

  lemma UndoneBehind(enc: EncDict, dec: Dict, run: seq<Item>)
    requires run != [] && StringOf(run[0].read, Sent(enc, run[0].s), dec).Got?
    requires !Delivered(Learn(enc, run[0].send, run[0].s),
                        StringOf(run[0].read, Sent(enc, run[0].s), dec).dict, run[1..])
    ensures !Delivered(enc, dec, run)
  {
    hide Sent, StringOf, Learn;
    if Delivered(enc, dec, run) {
      assert Strings(run)[1..] == Strings(run[1..]);
    }
  }

  /** A run can be relied on, at every point and whatever follows, exactly when the modes agree
      wherever they make a difference. */
  lemma InternExact(enc: EncDict, dec: Dict, items: seq<Item>)
    requires Inverse(enc, dec) && |dec| <= MAX_LEN && Sendable(items)
    ensures Reliable(enc, dec, items) <==> InStep(enc, items)
  {
    hide Exchange, InStep, Inverse;
    if InStep(enc, items) {
      forall k: nat, more: seq<Item> | k <= |items| && Sendable(more) && Matching(more)
        ensures Delivered(enc, dec, items[..k] + more)
      {
        PrefixInStep(enc, items, k, more);
        InStepDelivers(enc, dec, items[..k] + more);
      }
    } else {
      var k, more := RunUndone(enc, dec, items);
    }
  }

  // ---- the same on bytes ----

  /** The bytes of a run. */
  function SendAll(enc: EncDict, items: seq<Item>): bytes
    requires Small(enc) && Sendable(items)
    decreases items
  {
    if items == [] then [] else
    SentValid(enc, items[0].send, items[0].s);
    Emit(Sent(enc, items[0].s)) + SendAll(Learn(enc, items[0].send, items[0].s), items[1..])
  }

  /** A run of the decoder, reading as many strings in the reading modes. */
  function ReceiveAll(input: bytes, pos: nat, items: seq<Item>, dec: Dict): Dec<seq<bytes>>
    decreases items
  {
    if items == [] then Done([], pos, dec) else
    match StringAt(items[0].read, input, pos, dec)
    case Fail => Fail
    case Done(s, p, d) => Prepend([s], ReceiveAll(input, p, items[1..], d))
  }

  /** Reading the bytes of a run is the exchange, whatever the modes. */
  lemma {:induction false} ExchangeOnBytes(enc: EncDict, dec: Dict, items: seq<Item>, input: bytes, pos: nat)
    requires Small(enc) && Sendable(items) && At(input, pos, SendAll(enc, items))
    ensures ReceiveAll(input, pos, items, dec)
         == Finish(Exchange(enc, dec, items), pos + |SendAll(enc, items)|)
    decreases items
  {
    hide Emit, Parse, StringOf, Sent, Learn, Small;
    if items == [] {
    } else {
      var Item(s, send, read) := items[0];
      SentValid(enc, send, s);
      var w, enc' := Sent(enc, s), Learn(enc, send, s);
      AtConcat(input, pos, Emit(w), SendAll(enc', items[1..]));
      ParseEmit(input, pos, w);
      if StringOf(read, w, dec).Got? {
        ExchangeOnBytes(enc', StringOf(read, w, dec).dict, items[1..], input, pos + |Emit(w)|);
      }
    }
  }

  /** Any run in step, from any shared one-to-one dictionary and past the size cap: the decoder
      returns the strings that were sent, in order, stops at the end of the run, and its list
      is then the exact inverse of the encoder's map. */
  lemma InternRun(enc: EncDict, dec: Dict, items: seq<Item>, input: bytes, pos: nat)
    requires Inverse(enc, dec) && |dec| <= MAX_LEN && Sendable(items) && InStep(enc, items)
    ensures Small(enc)
    ensures At(input, pos, SendAll(enc, items)) ==>
      var r := ReceiveAll(input, pos, items, dec);
      && r.Done? && r.val == Strings(items) && r.end == pos + |SendAll(enc, items)|
      && Inverse(LearnAll(enc, items), r.dict)
  {
    hide SendAll, ReceiveAll, Exchange, LearnAll, Inverse, Small, InStep, Strings;
    InverseSmall(enc, dec);
    InStepDelivers(enc, dec, items);
    if At(input, pos, SendAll(enc, items)) { ExchangeOnBytes(enc, dec, items, input, pos); }
  }

  // ---- where interning does not reach: the interface decoder ----

  /** The wire forms of a run. */
  function Wires(enc: EncDict, items: seq<Item>): seq<Wire>
    decreases items
  {
    if items == [] then [] else [Sent(enc, items[0].s)] + Wires(Learn(enc, items[0].send, items[0].s), items[1..])
  }

  /** No string that was learned on the way, and not known from the start, is sent again. */
  predicate NothingReused(known: EncDict, enc: EncDict, items: seq<Item>)
    decreases items
  {
    items == [] ||
    ((items[0].s in enc ==> items[0].s in known)
     && NothingReused(known, Learn(enc, items[0].send, items[0].s), items[1..]))
  }

  function Values(items: seq<Item>): seq<Value> {
    if items == [] then [] else [VStr(items[0].s)] + Values(items[1..])
  }

  /** enc is what a run has made of known. */
  ghost predicate Extends(enc: EncDict, known: EncDict) {
    && |enc| >= |known| && Small(enc)
    && (forall s :: s in known ==> s in enc && enc[s] == known[s])
    && (forall s :: s in enc && s !in known ==> enc[s] >= |known|)
  }

  lemma {:induction false} InterfaceRunFrom(mode: Mode, known: EncDict, enc: EncDict, dec: Dict, items: seq<Item>)
    requires Inverse(known, dec) && |dec| <= MAX_LEN && Extends(enc, known)
    ensures InterpAll(mode, Wires(enc, items), dec)
         == if NothingReused(known, enc, items) then Got(Values(items), dec) else Bad
    decreases items
  {
    hide Reference, Interp, Sent;
    if items == [] {
    } else {
      var s, enc' := items[0].s, Learn(enc, items[0].send, items[0].s);
      var ws := Wires(enc, items);
      assert ws[0] == Sent(enc, s) && ws[1..] == Wires(enc', items[1..]);
      SentAsValue(mode, enc, dec, s);
      InterfaceRunFrom(mode, known, enc', dec, items[1..]);
    }
  }

  /** As a value, what is sent for s is s, unless it refers beyond the decoder's list. */
  lemma SentAsValue(mode: Mode, enc: EncDict, dec: Dict, s: bytes)
    requires Small(enc)
    ensures Interp(mode, Sent(enc, s), dec)
         == if s !in enc then Got(VStr(s), dec)
            else if enc[s] < |dec| then Got(VStr(dec[enc[s]]), dec)
            else Bad
  {
    hide Be, FromBe;
    if s in enc { ReferenceData(enc[s]); }
  }

  /** The interface decoder reads string values without remembering them. An array of strings
      sent through the interning encoder is read back exactly if no string learned on the way
      is sent again, and is refused otherwise. */
  lemma InterfaceRun(mode: Mode, enc: EncDict, dec: Dict, items: seq<Item>)
    requires Inverse(enc, dec) && |dec| <= MAX_LEN
    ensures Interp(mode, WArr(Wires(enc, items)), dec)
         == if NothingReused(enc, enc, items) then Got(VArr(Values(items)), dec) else Bad
  {
    hide InterpAll, Wires, Values;
    InterfaceRunFrom(mode, enc, enc, dec, items);
  }

  // ---- the encoder's map as a list ----

  function IndexIn(d: Dict, s: bytes): (i: nat)
    requires s in d
    ensures i < |d| && d[i] == s
  {
    if d[0] == s then 0 else 1 + IndexIn(d[1..], s)
  }

  /** What is sent for s when the dictionary holds the strings of d in this order. */
  function SentBy(d: Dict, s: bytes): Wire {
    if s in d then Reference(IndexIn(d, s)) else WStr(s)
  }

  /** What sending s makes of the list. */
  function LearnBy(d: Dict, intern: bool, s: bytes): Dict { if s in d then d else Remember(intern, d, s) }

  lemma ListStep(enc: EncDict, d: Dict, intern: bool, s: bytes)
    requires Inverse(enc, d)
    ensures Sent(enc, s) == SentBy(d, s) && Inverse(Learn(enc, intern, s), LearnBy(d, intern, s))
  {
    hide Reference;
  }
}
