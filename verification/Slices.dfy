/** Decoding an array into an existing slice of scalars, reusing and growing its storage. */
module Slices {
  import opened Bytes
  import opened Buffers
  import opened Codes
  import opened Wire
  import opened Bounds
  import opened Decoders
  import Floats
  import Rounding
  import Numbers
  import CompactFloats

  /** The scalar types an element may have; widths in bytes. */
  datatype Kind = Bool | Int(width: nat) | Uint(width: nat) | Float(format: Floats.Format)

  datatype Elem = Flag(b: bool) | Num(n: int) | Bits(bits: nat)

  function Zero(kind: Kind): Elem {
    match kind case Bool => Flag(false) case Float(_) => Bits(0) case _ => Num(0)
  }

  function Map<A, B>(r: Outcome<A>, f: A -> B): Outcome<B> {
    match r case Err => Err case Ok(x, e) => Ok(f(x), e)
  }

  /** One element. Integers are read at 64 bits and cut down to the width of the type. */
  function ElemAt(kind: Kind, input: bytes, pos: nat, wild: int): Outcome<Elem> {
    match kind
    case Bool => Map(Numbers.BoolAt(input, pos), b => Flag(b))
    case Int(k) => Map(Numbers.IntAt(input, pos, wild), n => Num(Signed(Unsigned(n, k), k)))
    case Uint(k) => Map(Numbers.UintAt(input, pos, wild), n => Num(Unsigned(n, k)))
    case Float(f) => Map(CompactFloats.FloatAt(f, input, pos, wild), bits => Bits(bits))
  }

  /** What an element is, given the number read for it: in the range of its type and congruent to
      that number, so a number that fits is kept; bools and floats are what was read. */
  ghost predicate Means(kind: Kind, input: bytes, pos: nat, wild: int, x: Elem) {
    match kind
    case Bool => Numbers.BoolAt(input, pos).Ok? && x == Flag(Numbers.BoolAt(input, pos).val)
    case Int(k) =>
      && Numbers.IntAt(input, pos, wild).Ok? && x.Num? && InSigned(x.n, k)
      && (Numbers.IntAt(input, pos, wild).val - x.n) % Pow256(k) == 0
    case Uint(k) =>
      && Numbers.UintAt(input, pos, wild).Ok? && x.Num? && 0 <= x.n < Pow256(k)
      && (Numbers.UintAt(input, pos, wild).val - x.n) % Pow256(k) == 0
    case Float(f) =>
      CompactFloats.FloatAt(f, input, pos, wild).Ok? && x == Bits(CompactFloats.FloatAt(f, input, pos, wild).val)
  }

  lemma ElemMeans(kind: Kind, input: bytes, pos: nat, wild: int)
    requires kind.Int? ==> kind.width > 0
    ensures ElemAt(kind, input, pos, wild).Ok? ==> Means(kind, input, pos, wild, ElemAt(kind, input, pos, wild).val)
    ensures kind.Int? && NumWidth(kind.width) && Numbers.IntAt(input, pos, wild).Ok? ==>
      var n := Numbers.IntAt(input, pos, wild).val;
      InSigned(n, kind.width) ==> ElemAt(kind, input, pos, wild).val == Num(n)
    ensures kind.Uint? && Numbers.UintAt(input, pos, wild).Ok? ==>
      var n := Numbers.UintAt(input, pos, wild).val;
      0 <= n < Pow256(kind.width) ==> ElemAt(kind, input, pos, wild).val == Num(n)
  {
    hide Numbers.IntAt, Numbers.UintAt, Numbers.BoolAt, CompactFloats.FloatAt, Pow256;
    match kind
    case Int(k) => if Numbers.IntAt(input, pos, wild).Ok? { CutDown(Numbers.IntAt(input, pos, wild).val, k); }
    case Uint(k) =>
      if Numbers.UintAt(input, pos, wild).Ok? { UnsignedIsCongruent(Numbers.UintAt(input, pos, wild).val, k); }
    case _ =>
  }

  lemma CutDown(n: int, k: nat)
    requires k > 0
    ensures var x := Signed(Unsigned(n, k), k);
      InSigned(x, k) && (n - x) % Pow256(k) == 0 && (NumWidth(k) && InSigned(n, k) ==> x == n)
  {
    hide Signed, Unsigned, Pow256;
    var p, u := Pow256(k), Unsigned(n, k);
    UnsignedIsCongruent(n, k);
    SignedIsCongruent(u, k);
    if NumWidth(k) && InSigned(n, k) { SignedOfUnsigned(n, k); }
    if Signed(u, k) != u { ShiftedRest(n - u, p); }
  }

  lemma ShiftedRest(a: int, p: int)
    requires p > 0 && a % p == 0
    ensures (a + p) % p == 0
  {
    var q := a / p;
    assert a + p == p * (q + 1);
    MultipleRest(p, q + 1);
  }

  /** The zero an element starts out as is what a nil is read as. */
  lemma NilIsZero(kind: Kind, wild: int)
    requires kind.Int? || kind.Uint? ==> NumWidth(kind.width)
    ensures ElemAt(kind, [0xc0], 0, wild) == Ok(Zero(kind), 1)
  {
    hide Signed, Unsigned, Pow256, Floats.Pow2, Floats.Shifted, Floats.Multiple;
    NilIsNothing();
    if kind.Float? { Rounding.ZeroPattern(kind.format); }
    if kind.Int? { UnsignedZero(kind.width); }
    if kind.Uint? { UnsignedZero(kind.width); }
  }

  lemma NilIsNothing()
    ensures Parse([0xc0], 0) == Ok(WNil, 1)
  {}

  lemma UnsignedZero(k: nat)
    requires NumWidth(k)
    ensures Unsigned(0, k) == 0 && Signed(0, k) == 0
  {
    PowValues();
  }

  /** Where element i starts. */
  function ElemPos(kind: Kind, input: bytes, pos: nat, i: nat, wild: int): nat
    decreases i
  {
    if i == 0 then pos
    else match ElemAt(kind, input, pos, wild)
         case Err => pos
         case Ok(_, p) => ElemPos(kind, input, p, i - 1, wild)
  }

  /** n elements in a row. */
  function ElemsAt(kind: Kind, input: bytes, pos: nat, n: nat, wild: int): (r: Outcome<seq<Elem>>)
    ensures r.Ok? ==> |r.val| == n
    decreases n
  {
    if n == 0 then Ok([], pos) else
    match ElemAt(kind, input, pos, wild)
    case Err => Err
    case Ok(x, p) =>
      match ElemsAt(kind, input, p, n - 1, wild)
      case Err => Err
      case Ok(xs, e) => Ok([x] + xs, e)
  }

  /** Every element of a row is what was read where it starts. */
  lemma {:induction false} ElemsMean(kind: Kind, input: bytes, pos: nat, n: nat, wild: int)
    requires ElemsAt(kind, input, pos, n, wild).Ok? && (kind.Int? ==> kind.width > 0)
    ensures forall i :: 0 <= i < n ==>
      Means(kind, input, ElemPos(kind, input, pos, i, wild), wild, ElemsAt(kind, input, pos, n, wild).val[i])
    decreases n
  {
    hide ElemAt, Means;
    if n == 0 {
    } else {
      ElemMeans(kind, input, pos, wild);
      var p := ElemAt(kind, input, pos, wild).end;
      ElemsMean(kind, input, p, n - 1, wild);
      forall i | 0 <= i < n
        ensures Means(kind, input, ElemPos(kind, input, pos, i, wild), wild, ElemsAt(kind, input, pos, n, wild).val[i])
      {
        if i > 0 {
          assert ElemPos(kind, input, pos, i, wild) == ElemPos(kind, input, p, i - 1, wild);
          assert ElemsAt(kind, input, pos, n, wild).val[i] == ElemsAt(kind, input, p, n - 1, wild).val[i - 1];
        }
      }
    }
  }

  function Onto(done: seq<Elem>, r: Outcome<seq<Elem>>): Outcome<seq<Elem>> {
    match r case Err => Err case Ok(xs, e) => Ok(done + xs, e)
  }

  /** What a slice decodes to, given that one more level is allowed. */
  function SliceAt(kind: Kind, input: bytes, pos: nat, n: nat, room: int, wild: int): Outcome<seq<Elem>> {
    if n > 0 && room < 1 then Err else ElemsAt(kind, input, pos, n, wild)
  }

  /** Adds room for the elements still to come, a limited step at a time unless limits are off. */
  method GrowSlice(kind: Kind, v: Buffer<Elem>, n: nat, noLimit: bool) returns (r: Buffer<Elem>)
    requires v.Valid() && v.Len() < n
    ensures r.Buffer? && r.Valid() && r.Len() <= n && r.Len() > v.Len()
    ensures r.Contents() == v.Contents() + Repeat(Zero(kind), r.Len() - v.Len())
    ensures noLimit ==> r.Len() == n
    ensures !noLimit ==> r.Len() <= v.Len() + 1_000_000
  {
    var diff := n - v.Len();
    if !noLimit && diff > SLICE_ALLOC_LIMIT {
      diff := SLICE_ALLOC_LIMIT;
    }
    r := AppendZeros(v, Zero(kind), diff);
  }

  /** One element: DecodeValue of a scalar. */
  method DecodeElement(d: Decoder, kind: Kind) returns (r: Option<Elem>)
    requires d.Valid()
    modifies d`pos, d`buf, d`rec, d`depth
    ensures d.Valid() && d.depth == old(d.depth)
    ensures match ElemAt(kind, d.input, old(d.pos), d.wild)
            case Err => r.None?
            case Ok(x, e) => if old(d.Below()).room < 1 then r.None? else r == Some(x) && d.pos == e
  {
    hide Numbers.IntAt, Numbers.UintAt, Numbers.BoolAt, CompactFloats.FloatAt, Signed, Unsigned;
    var ok := d.EnterDepth();
    if !ok {
      return None;
    }
    match kind {
      case Bool =>
        var b := d.DecodeBool();
        r := if b.Some? then Some(Flag(b.value)) else None;
      case Int(k) =>
        var n := d.DecodeInt64();
        r := if n.Some? then Some(Num(Signed(Unsigned(n.value, k), k))) else None;
      case Uint(k) =>
        var n := d.DecodeUint64();
        r := if n.Some? then Some(Num(Unsigned(n.value, k))) else None;
      case Float(f) =>
        var x;
        if f.Binary32? {
          x := d.DecodeFloat32();
        } else {
          x := d.DecodeFloat64();
        }
        r := if x.Some? then Some(Bits(x.value)) else None;
    }
    d.LeaveDepth();
  }

  /** The elements overwrite the old contents in place; the storage is reused as far as it goes
      and then grown. Whatever the slice was, it ends up holding exactly the decoded elements.
      Under the allocation limit its length stays within the old capacity or a million elements
      of what has been decoded, on success and on failure alike. */
  method DecodeSliceValue(d: Decoder, kind: Kind, v0: Buffer<Elem>)
      returns (v: Buffer<Elem>, ok: bool, ghost decoded: nat)
    requires d.Valid() && v0.Valid()
    modifies d`pos, d`buf, d`rec, d`depth
    ensures d.Valid() && d.depth == old(d.depth) && v.Valid()
    ensures
      if old(d.pos) >= |d.input| then !ok
      else
        var c := d.input[old(d.pos)];
        if KindOf(c) != ArrCode then ok == (c == NIL) && (ok ==> v == NilBuffer && d.pos == old(d.pos) + 1)
        else if Refused(d.input, old(d.pos) + 1, c, d.sized, d.LengthCap(), 1) then !ok
        else
          var n, p := Arg(d.input, old(d.pos) + 1, c).val, Arg(d.input, old(d.pos) + 1, c).end;
          match SliceAt(kind, d.input, p, n, old(d.Below()).room, d.wild)
          case Err => !ok
          case Ok(xs, e) => ok && v.Buffer? && v.Contents() == xs && d.pos == e && decoded == n
    ensures ok && decoded > 0 && (kind.Int? ==> kind.width > 0) ==>
      var p := old(d.pos) + 1 + ArgWidth(d.input[old(d.pos)]);
      |v.Contents()| == decoded && forall i :: 0 <= i < decoded ==>
        Means(kind, d.input, ElemPos(kind, d.input, p, i, d.wild), d.wild, v.Contents()[i])
    ensures !d.noAllocLimit ==> v.Len() <= Max(v0.Cap(), decoded + 1_000_000)
  {
    hide KindOf, Arg, Refused, SliceAt, Buffer.Contents, Means, ElemPos, ElemsAt;
    v, decoded := v0, 0;
    var n;
    ok, n := d.DecodeArrayLen();
    LenWithinCap(v0);
    if !ok {
      return;
    }
    if n == -1 {
      v := NilBuffer;
      return;
    }
    if n == 0 && v.NilBuffer? {
      SliceNone(kind, d.input, d.pos, d.Below().room, d.wild);
      v := Buffer([], 0);
      return;
    }
    v := Reslice(v, n);
    if d.noAllocLimit && n > v.Len() {
      v := GrowSlice(kind, v, n, true);
    }
    ghost var p := d.pos;
    v, ok, decoded := FillSlice(d, kind, v, n, v0.Cap());
    SliceMeans(kind, d.input, p, n, old(d.Below()).room, d.wild);
  }

  lemma SliceMeans(kind: Kind, input: bytes, pos: nat, n: nat, room: int, wild: int)
    ensures SliceAt(kind, input, pos, n, room, wild).Ok? ==>
      |SliceAt(kind, input, pos, n, room, wild).val| == n
    ensures SliceAt(kind, input, pos, n, room, wild).Ok? && (kind.Int? ==> kind.width > 0) ==>
      forall i :: 0 <= i < n ==>
        Means(kind, input, ElemPos(kind, input, pos, i, wild), wild, SliceAt(kind, input, pos, n, room, wild).val[i])
  {
    hide Means, ElemPos, ElemsAt;
    if SliceAt(kind, input, pos, n, room, wild).Ok? && (kind.Int? ==> kind.width > 0) {
      ElemsMean(kind, input, pos, n, wild);
    }
  }

  lemma LenWithinCap(v: Buffer<Elem>)
    requires v.Valid()
    ensures v.Len() <= v.Cap() && Buffer<Elem>.Buffer([], 0).Contents() == []
  {}

  lemma SliceNone(kind: Kind, input: bytes, pos: nat, room: int, wild: int)
    ensures SliceAt(kind, input, pos, 0, room, wild) == Ok([], pos)
  {}

  method FillSlice(d: Decoder, kind: Kind, v0: Buffer<Elem>, n: nat, cap: nat)
      returns (v: Buffer<Elem>, ok: bool, ghost decoded: nat)
    requires d.Valid() && v0.Valid() && v0.Len() <= n && (n == 0 ==> v0.Buffer?)
    requires !d.noAllocLimit ==> v0.Len() <= cap
    modifies d`pos, d`buf, d`rec, d`depth
    ensures d.Valid() && d.depth == old(d.depth) && v.Valid() && decoded <= n
    ensures match SliceAt(kind, d.input, old(d.pos), n, old(d.Below()).room, d.wild)
            case Err => !ok
            case Ok(xs, e) => ok && v.Buffer? && v.Contents() == xs && d.pos == e && decoded == n
    ensures !d.noAllocLimit ==> v.Len() <= Max(cap, decoded + SLICE_ALLOC_LIMIT)
  {
    hide ElemsAt, ElemAt, Buffer.Contents, Onto, Zero;
    v, decoded := v0, 0;
    ghost var all := ElemsAt(kind, d.input, d.pos, n, d.wild);
    ghost var done: seq<Elem> := [];
    OntoNothing(all);
    var i: nat := 0;
    while i < n
      invariant i <= n && d.Valid() && d.depth == old(d.depth) && v.Valid() && (n == 0 ==> v.Buffer?)
      invariant i <= v.Len() <= n && |done| == i && decoded == i
      invariant v.Contents()[..i] == done
      invariant i > 0 ==> d.Below().room >= 1
      invariant all == Onto(done, ElemsAt(kind, d.input, d.pos, n - i, d.wild))
      invariant !d.noAllocLimit ==> v.Len() <= Max(cap, i + SLICE_ALLOC_LIMIT)
    {
      if i >= v.Len() {
        v := GrowSlice(kind, v, n, d.noAllocLimit);
      }
      ElemsNext(done, kind, d.input, d.pos, n - i, d.wild);
      var x := DecodeElement(d, kind);
      if x.None? {
        ok := false;
        return;
      }
      v := SetAt(v, i, x.value);
      done := done + [x.value];
      i := i + 1;
      decoded := i;
    }
    ElemsDone(done, kind, d.input, d.pos, d.wild);
    assert v.Contents()[..n] == v.Contents();
    ok := true;
  }

  /** Keeps as much of the old storage as is wanted. */
  method Reslice(v: Buffer<Elem>, n: nat) returns (r: Buffer<Elem>)
    requires v.Valid() && !(n == 0 && v.NilBuffer?)
    ensures r.Valid() && r.Len() <= n && r.Len() <= v.Cap() && (n == 0 ==> r.Buffer?)
  {
    r := v;
    if v.Cap() >= n {
      r := Buffer(v.mem, n);
    } else if v.Len() < v.Cap() {
      r := v.(len := v.Cap());
    }
  }

  method SetAt(v: Buffer<Elem>, i: nat, x: Elem) returns (r: Buffer<Elem>)
    requires v.Valid() && i < v.Len()
    ensures r.Valid() && r.Len() == v.Len() && r.Contents()[..i + 1] == v.Contents()[..i] + [x]
  {
    r := v.(mem := v.mem[i := x]);
  }

  lemma ElemsDone(done: seq<Elem>, kind: Kind, input: bytes, pos: nat, wild: int)
    ensures Onto(done, ElemsAt(kind, input, pos, 0, wild)) == Ok(done, pos)
  {
    assert done + [] == done;
  }

  lemma OntoNothing(r: Outcome<seq<Elem>>)
    ensures Onto([], r) == r
  {
    if r.Ok? { assert [] + r.val == r.val; }
  }

  lemma ElemsNext(done: seq<Elem>, kind: Kind, input: bytes, pos: nat, n: nat, wild: int)
    requires n > 0
    ensures match ElemAt(kind, input, pos, wild)
            case Err => Onto(done, ElemsAt(kind, input, pos, n, wild)) == Err
            case Ok(x, p) =>
              Onto(done, ElemsAt(kind, input, pos, n, wild)) == Onto(done + [x], ElemsAt(kind, input, p, n - 1, wild))
  {
    hide ElemAt;
    if ElemAt(kind, input, pos, wild).Ok? {
      var Ok(x, p) := ElemAt(kind, input, pos, wild);
      if ElemsAt(kind, input, p, n - 1, wild).Ok? {
        var xs := ElemsAt(kind, input, p, n - 1, wild).val;
        assert done + ([x] + xs) == done + [x] + xs;
      }
    }
  }
}
