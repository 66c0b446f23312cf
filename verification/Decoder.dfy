/**
 The Decoder: one object whose reader position, depth counter, scratch buffer, recording
 buffer and intern dictionary change on every call. Every method is proved against the
 unlimited, guard-free grammar of module Wire and the interpretation of module Value.
 */
module Decoders {
  import opened Bytes
  import opened Buffers
  import opened Codes
  import opened Wire
  import opened Bounds
  import opened Value
  import Time
  import Floats
  import Numbers
  import CompactFloats
  import Rounding

  const BYTES_ALLOC_LIMIT: nat := 0x10_0000
  const SLICE_ALLOC_LIMIT: nat := 1_000_000
  const MAX_MAP_SIZE: nat := 1_000_000
  const DEFAULT_DEPTH_LIMIT := 10_000

  datatype Recording = Off | On(data: bytes)

  function Grow(r: Recording, s: bytes): Recording {
    match r case Off => Off case On(data) => On(data + s)
  }

  /** Recording two adjacent slices is recording the slice they make up. */
  lemma GrowTwice(r: Recording, input: bytes, i: nat, j: nat, k: nat)
    requires i <= j <= k <= |input|
    ensures Grow(Grow(r, input[i..j]), input[j..k]) == Grow(r, input[i..k])
    ensures Grow(r, input[i..i]) == r
  {
    assert input[i..k] == input[i..j] + input[j..k];
    assert input[i..i] == [];
    if r.On? {
      assert r.data + input[i..j] + input[j..k] == r.data + (input[i..j] + input[j..k]);
    }
  }

  lemma QuotientTest(n: nat, m: nat, room: nat)
    requires m > 0
    ensures n <= room / m <==> m * n <= room
  {
    var q := room / m;
    if n <= q { TimesGrows(m, n, q); } else { TimesGrows(m, q + 1, n); }
    QuotientBrackets(room, m);
  }

  lemma QuotientBrackets(room: nat, m: nat)
    requires m > 0
    ensures m * (room / m) <= room < m * (room / m + 1)
  {}

  lemma TimesGrows(m: nat, a: nat, b: nat)
    requires a <= b
    ensures m * a <= m * b
  {}

  class Decoder {
    const input: bytes                       // everything the reader will deliver
    const sized: bool                        // the reader tells how many bytes are left
    const registered: (int, bytes) -> bool   // payloads that registered ext decoders accept
    const wild: int                          // an out-of-range float converted to an integer
    var pos: nat
    var buf: Buffer<byte>
    var rec: Recording
    var dict: Dict
    var depth: nat
    var maxDepth: int
    var loose: bool
    var intern: bool
    var noAllocLimit: bool
    var disallowUnknown: bool

    ghost predicate Valid()
      reads this
    {
      pos <= |input| && buf.Valid() && depth <= DepthLimit()
    }

    function DepthLimit(): (limit: int)
      reads this`maxDepth
      ensures limit > 0 && (maxDepth > 0 ==> limit == maxDepth) && (maxDepth <= 0 ==> limit == 10_000)
    {
      if maxDepth <= 0 then DEFAULT_DEPTH_LIMIT else maxDepth
    }

    /** The longest container the guards let through, apart from those that cannot fit. */
    function LengthCap(): (cap: nat)
      reads this`noAllocLimit
      ensures sized || noAllocLimit ==> cap == 0x1_0000_0000
      ensures !sized && !noAllocLimit ==> cap == 1_000_000
    {
      if sized || noAllocLimit then MAX_LEN else SLICE_ALLOC_LIMIT
    }

    /** The limits on a value decoded or skipped one level below the current one. */
    function Below(): Limits
      reads this`depth, this`maxDepth, this`noAllocLimit
    {
      Limits(DepthLimit() - depth, LengthCap())
    }

    /** The limits on a value decoded at the current level. */
    function Here(): Limits
      reads this`depth, this`maxDepth, this`noAllocLimit
    {
      Limits(DepthLimit() - depth + 1, LengthCap())
    }

    function CurrentMode(): Mode
      reads this`loose, this`intern
    {
      Mode(loose, intern, registered)
    }

    constructor (data: bytes, sized: bool, registered: (int, bytes) -> bool, wild: int)
      ensures Valid() && input == data && this.sized == sized && this.registered == registered
      ensures this.wild == wild
      ensures pos == 0 && rec == Off && dict == [] && depth == 0
      ensures maxDepth == DEFAULT_DEPTH_LIMIT
      ensures !loose && !intern && !noAllocLimit && !disallowUnknown
    {
      input, this.sized, this.registered, this.wild := data, sized, registered, wild;
      pos, buf, rec, dict, depth := 0, NilBuffer, Off, [], 0;
      maxDepth := DEFAULT_DEPTH_LIMIT;
      loose, intern, noAllocLimit, disallowUnknown := false, false, false, false;
    }

    // ---- the reader ----

    method ReadCode() returns (r: Option<byte>)
      requires Valid()
      modifies this`pos, this`rec
      ensures Valid()
      ensures r.Some? <==> old(pos) < |input|
      ensures r.Some? ==> pos == old(pos) + 1 && r.value == input[old(pos)]
      ensures r.Some? ==> rec == Grow(old(rec), input[old(pos)..pos])
      ensures r.None? ==> pos == old(pos) && rec == old(rec)
    {
      if pos >= |input| {
        return None;
      }
      var c := input[pos];
      pos := pos + 1;
      if rec.On? {
        rec := On(rec.data + [c]);
      }
      assert input[old(pos)..pos] == [c];
      return Some(c);
    }

    /** io.ReadFull: n bytes, or a failure that has used up the input. */
    method ReadFull(n: nat) returns (ok: bool, data: bytes)
      requires Valid()
      modifies this`pos
      ensures Valid()
      ensures ok <==> old(pos) + n <= |input|
      ensures ok ==> pos == old(pos) + n
      ensures !ok ==> pos == |input|
      ensures data == input[old(pos)..pos]
    {
      ok := pos + n <= |input|;
      var end := if ok then pos + n else |input|;
      data := input[pos..end];
      pos := end;
    }

    /** Overwrites b from index at with what the reader delivers. */
    method FillFrom(b: Buffer<byte>, at: nat) returns (r: Buffer<byte>, ok: bool)
      requires Valid() && b.Buffer? && b.Valid() && at <= b.len
      modifies this`pos
      ensures Valid() && r.Buffer? && r.Valid() && r.len == b.len && r.Cap() == b.Cap()
      ensures ok <==> old(pos) + (b.len - at) <= |input|
      ensures ok ==> pos == old(pos) + (b.len - at)
      ensures !ok ==> pos == |input|
      ensures ok ==> r.Contents() == b.Contents()[..at] + input[old(pos)..pos]
    {
      var data;
      ok, data := ReadFull(b.len - at);
      r := Buffer(b.mem[..at] + data + b.mem[at + |data|..], b.len);
    }

    /** The plain reader: one allocation of the full size. */
    method ReadNPlain(b0: Buffer<byte>, n: nat) returns (b: Buffer<byte>, ok: bool)
      requires Valid() && b0.Valid()
      modifies this`pos
      ensures Valid() && b.Buffer? && b.Valid() && b.len == n
      ensures pos >= old(pos)
      ensures ok <==> old(pos) + n <= |input|
      ensures ok ==> pos == old(pos) + n && b.Contents() == input[old(pos)..pos]
    {
      b := b0;
      if b.NilBuffer? {
        if n == 0 {
          return Buffer([], 0), true;
        }
        b := Buffer(Repeat(0, n), 0);
      }
      if n > b.Cap() {
        b := AppendZeros(b, 0, n - b.len);
      } else {
        b := b.(len := n);
      }
      b, ok := FillFrom(b, 0);
    }

    /** The capacity the growing reader starts from. */
    static function StartCap(b: Buffer<byte>, n: nat): (r: nat)
      ensures b.Buffer? ==> r == b.Cap()
      ensures b.NilBuffer? ==> r == Max(64, if n <= 1_048_576 then n else 1_048_576)
    {
      if b.Buffer? then |b.mem|
      else if n < 64 then 64 else if n <= BYTES_ALLOC_LIMIT then n else BYTES_ALLOC_LIMIT
    }

    /** The growing reader takes exactly the next n bytes, as the plain one does, whatever the
        old buffer was; excess is the most by which the buffer ever outgrew the bytes that had
        arrived, and it does not depend on n. */
    method ReadNGrow(b0: Buffer<byte>, n: nat) returns (b: Buffer<byte>, ok: bool, ghost excess: nat)
      requires Valid() && b0.Valid()
      modifies this`pos
      ensures Valid() && b.Buffer? && b.Valid()
      ensures pos >= old(pos)
      ensures ok <==> old(pos) + n <= |input|
      ensures ok ==> pos == old(pos) + n && b.Contents() == input[old(pos)..pos]
      ensures b.len <= (pos - old(pos)) + excess
      ensures excess <= StartCap(b0, n) + 1_048_576
    {
      b, excess := b0, 0;
      if b.NilBuffer? {
        if n == 0 {
          return Buffer([], 0), true, 0;
        }
        b := Buffer(Repeat(0, StartCap(b0, n)), 0);
      }
      if n <= b.Cap() {
        b, excess := b.(len := n), n;
        b, ok := FillFrom(b, 0);
        return;
      }
      b, ok, excess := FillInChunks(b.(len := b.Cap()), n);
    }

    /** The growth loop: a buffer too small for n is filled, then extended chunk by chunk. */
    method FillInChunks(b0: Buffer<byte>, n: nat) returns (b: Buffer<byte>, ok: bool, ghost excess: nat)
      requires Valid() && b0.Buffer? && b0.Valid() && b0.len < n
      modifies this`pos
      ensures Valid() && b.Buffer? && b.Valid() && pos >= old(pos)
      ensures ok <==> old(pos) + n <= |input|
      ensures ok ==> pos == old(pos) + n && b.Contents() == input[old(pos)..pos]
      ensures b.len <= (pos - old(pos)) + excess
      ensures excess <= b0.len + 1_048_576
    {
      hide Buffer.Contents, Repeat;
      b, excess := b0, 0;
      var at: nat := 0;
      while true
        invariant Valid() && b.Buffer? && b.Valid() && at <= b.len < n
        invariant at == pos - old(pos)
        invariant at > 0 ==> at == b.len
        invariant at == 0 ==> b.len == b0.len
        invariant b.Contents()[..at] == input[old(pos)..pos]
        invariant excess <= b0.len + BYTES_ALLOC_LIMIT
        decreases n - b.len
      {
        var alloc := if n - b.len < BYTES_ALLOC_LIMIT then n - b.len else BYTES_ALLOC_LIMIT;
        var c := AppendZeros(b, 0, alloc);
        assert c.Contents()[..at] == b.Contents()[..at];
        excess := Max(excess, c.len - at);
        ghost var before := pos;
        b, ok := FillFrom(c, at);
        if !ok {
          return;
        }
        assert input[old(pos)..pos] == input[old(pos)..before] + input[before..pos];
        if b.len == n {
          return;
        }
        at := b.len;
        assert b.Contents()[..at] == b.Contents();
      }
    }

    /** n bytes through the scratch buffer, recorded when recording is on. */
    method ReadN(n: nat) returns (ok: bool, data: bytes)
      requires Valid()
      modifies this`pos, this`buf, this`rec
      ensures Valid()
      ensures ok <==> old(pos) + n <= |input|
      ensures ok ==> pos == old(pos) + n && data == input[old(pos)..pos]
      ensures ok ==> rec == Grow(old(rec), input[old(pos)..pos])
      ensures !ok ==> rec == old(rec) && pos >= old(pos)
    {
      var b;
      if noAllocLimit {
        b, ok := ReadNPlain(buf, n);
      } else {
        ghost var excess;
        b, ok, excess := ReadNGrow(buf, n);
      }
      buf := b;
      if !ok {
        return false, [];
      }
      data := buf.Contents();
      if rec.On? {
        rec := On(rec.data + data);
      }
    }

    method Uint8() returns (r: Option<nat>)
      requires Valid()
      modifies this`pos, this`rec
      ensures Valid()
      ensures r.Some? <==> old(pos) + 1 <= |input|
      ensures r.Some? ==> pos == old(pos) + 1 && r.value == FromBe(input[old(pos)..pos])
      ensures r.Some? ==> rec == Grow(old(rec), input[old(pos)..pos])
      ensures r.None? ==> pos == old(pos) && rec == old(rec)
    {
      var c := ReadCode();
      if c.None? {
        return None;
      }
      JoinIsFromBe(input[old(pos)..pos]);
      return Some(c.value);
    }

    method Uint16() returns (r: Option<nat>)
      requires Valid()
      modifies this`pos, this`buf, this`rec
      ensures Valid()
      ensures r.Some? <==> old(pos) + 2 <= |input|
      ensures r.Some? ==> pos == old(pos) + 2 && r.value == FromBe(input[old(pos)..pos])
      ensures r.Some? ==> rec == Grow(old(rec), input[old(pos)..pos])
      ensures r.None? ==> rec == old(rec) && pos >= old(pos)
    {
      var ok, b := ReadN(2);
      if !ok {
        return None;
      }
      JoinIsFromBe(b);
      return Some(Join2(b[0], b[1]));
    }

    method Uint32() returns (r: Option<nat>)
      requires Valid()
      modifies this`pos, this`buf, this`rec
      ensures Valid()
      ensures r.Some? <==> old(pos) + 4 <= |input|
      ensures r.Some? ==> pos == old(pos) + 4 && r.value == FromBe(input[old(pos)..pos])
      ensures r.Some? ==> rec == Grow(old(rec), input[old(pos)..pos])
      ensures r.None? ==> rec == old(rec) && pos >= old(pos)
    {
      var ok, b := ReadN(4);
      if !ok {
        return None;
      }
      JoinIsFromBe(b);
      return Some(Join4(b[0], b[1], b[2], b[3]));
    }

    method Uint64() returns (r: Option<nat>)
      requires Valid()
      modifies this`pos, this`buf, this`rec
      ensures Valid()
      ensures r.Some? <==> old(pos) + 8 <= |input|
      ensures r.Some? ==> pos == old(pos) + 8 && r.value == FromBe(input[old(pos)..pos])
      ensures r.Some? ==> rec == Grow(old(rec), input[old(pos)..pos])
      ensures r.None? ==> rec == old(rec) && pos >= old(pos)
    {
      var ok, b := ReadN(8);
      if !ok {
        return None;
      }
      JoinIsFromBe(b);
      return Some(Join8(b[0], b[1], b[2], b[3], b[4], b[5], b[6], b[7]));
    }

    // ---- lengths and their guards ----

    /** Rejects a count that cannot fit in the bytes left, or is over the ceiling when the
        reader does not tell how many are left. */
    method RejectOversizedContainer(n: nat, minBytes: nat, isMap: bool) returns (ok: bool)
      requires Valid() && minBytes > 0 && n < MAX_LEN
      ensures sized ==> (ok <==> minBytes * n <= |input| - pos)
      ensures !sized ==> (ok <==> n <= LengthCap())
    {
      QuotientTest(n, minBytes, |input| - pos);
      if n <= 0 {
        return true;
      }
      if sized {
        return n <= (|input| - pos) / minBytes;
      }
      if noAllocLimit {
        return true;
      }
      var limit := SLICE_ALLOC_LIMIT;
      if isMap {
        limit := MAX_MAP_SIZE;
      }
      return n <= limit;
    }

    method RejectOversizedBytes(n: nat) returns (ok: bool)
      requires Valid()
      ensures ok <==> !sized || n <= |input| - pos
    {
      if n <= 0 || !sized {
        return true;
      }
      return n <= |input| - pos;
    }

    /** Array length. A refusal is always of a length that could not have been read in full. */
    method ArrayLen(c: byte) returns (ok: bool, n: int)
      requires Valid()
      modifies this`pos, this`buf, this`rec
      ensures Valid() && pos >= old(pos) && (rec.Off? <==> old(rec).Off?)
      ensures ok && c == NIL ==> n == -1 && pos == old(pos) && rec == old(rec)
      ensures ok && c != NIL ==>
        && KindOf(c) == ArrCode && n >= 0 && Arg(input, old(pos), c) == Ok(n, pos)
        && n <= LengthCap() && rec == Grow(old(rec), input[old(pos)..pos])
      ensures !ok ==> c != NIL
      ensures KindOf(c) == ArrCode ==> (ok <==> !Refused(input, old(pos), c, sized, LengthCap(), 1))
    {
      hide FromBe, KindOf, Arg, FixArg, IsExt, IsString, IsBin, IsFixedNum;
      KindTable(c);
      LengthArg(input, pos, c);
      if c == NIL {
        return true, -1;
      }
      assert rec == Grow(rec, []);
      assert input[pos..pos] == [];
      if IsFixedArray(c) {
        n := FixArg(c);
        ok := RejectOversizedContainer(n, 1, false);
        return;
      }
      var len: Option<nat>;
      if c == ARRAY16 {
        len := Uint16();
      } else if c == ARRAY32 {
        len := Uint32();
      } else {
        return false, 0;
      }
      if len.None? {
        return false, 0;
      }
      n := len.value;
      ok := RejectOversizedContainer(n, 1, false);
    }

    method MapLen(c: byte) returns (ok: bool, n: int)
      requires Valid()
      modifies this`pos, this`buf, this`rec
      ensures Valid() && pos >= old(pos) && (rec.Off? <==> old(rec).Off?)
      ensures ok && c == NIL ==> n == -1 && pos == old(pos) && rec == old(rec)
      ensures ok && c != NIL ==>
        && KindOf(c) == MapCode && n >= 0 && Arg(input, old(pos), c) == Ok(n, pos)
        && n <= LengthCap() && rec == Grow(old(rec), input[old(pos)..pos])
      ensures !ok ==> c != NIL
      ensures KindOf(c) == MapCode ==> (ok <==> !Refused(input, old(pos), c, sized, LengthCap(), 2))
    {
      hide FromBe, KindOf, Arg, FixArg, IsExt, IsString, IsBin, IsFixedNum;
      KindTable(c);
      LengthArg(input, pos, c);
      if c == NIL {
        return true, -1;
      }
      assert rec == Grow(rec, []);
      assert input[pos..pos] == [];
      if IsFixedMap(c) {
        n := FixArg(c);
        ok := RejectOversizedContainer(n, 2, true);
        return;
      }
      var len: Option<nat>;
      if c == MAP16 {
        len := Uint16();
      } else if c == MAP32 {
        len := Uint32();
      } else {
        return false, 0;
      }
      if len.None? {
        return false, 0;
      }
      n := len.value;
      ok := RejectOversizedContainer(n, 2, true);
    }

    /** Length of a string or byte string. */
    method BytesLen(c: byte) returns (ok: bool, n: int)
      requires Valid()
      modifies this`pos, this`buf, this`rec
      ensures Valid() && pos >= old(pos) && (rec.Off? <==> old(rec).Off?)
      ensures ok && c == NIL ==> n == -1 && pos == old(pos) && rec == old(rec)
      ensures ok && c != NIL ==>
        && (KindOf(c) == StrCode || KindOf(c) == BinCode)
        && Arg(input, old(pos), c) == Ok(n, pos) && rec == Grow(old(rec), input[old(pos)..pos])
      ensures !ok ==> c != NIL
      ensures KindOf(c) == StrCode || KindOf(c) == BinCode ==>
        (ok <==> !Refused(input, old(pos), c, sized, MAX_LEN, 1))
    {
      hide FromBe;
      ArgBound(input, pos, c);
      if c == NIL {
        return true, -1;
      }
      assert rec == Grow(rec, []);
      assert input[pos..pos] == [];
      if IsFixedString(c) {
        n := FixArg(c);
        ok := RejectOversizedBytes(n);
        return;
      }
      var len: Option<nat>;
      if c == STR8 || c == BIN8 {
        len := Uint8();
      } else if c == STR16 || c == BIN16 {
        len := Uint16();
      } else if c == STR32 || c == BIN32 {
        len := Uint32();
      } else {
        return false, 0;
      }
      if len.None? {
        return false, 0;
      }
      n := len.value;
      ok := RejectOversizedBytes(n);
    }

    /** Payload length of an extension; the type byte is still to come. */
    method ParseExtLen(c: byte) returns (ok: bool, n: nat)
      requires Valid()
      modifies this`pos, this`buf, this`rec
      ensures Valid() && pos >= old(pos) && (rec.Off? <==> old(rec).Off?)
      ensures ok ==>
        && KindOf(c) == ExtCode && Arg(input, old(pos), c) == Ok(n, pos)
        && rec == Grow(old(rec), input[old(pos)..pos])
      ensures KindOf(c) == ExtCode ==>
        (ok <==> IsFixedExt(c) || !Refused(input, old(pos), c, sized, MAX_LEN, 1))
    {
      hide FromBe;
      ArgBound(input, pos, c);
      assert rec == Grow(rec, []);
      assert input[pos..pos] == [];
      if IsFixedExt(c) {
        return true, FixArg(c);
      }
      var len: Option<nat>;
      if c == EXT8 {
        len := Uint8();
      } else if c == EXT16 {
        len := Uint16();
      } else if c == EXT32 {
        len := Uint32();
      } else {
        return false, 0;
      }
      if len.None? {
        return false, 0;
      }
      n := len.value;
      ok := RejectOversizedBytes(n);
    }

    // ---- depth ----

    method EnterDepth() returns (ok: bool)
      modifies this`depth
      ensures ok <==> old(depth) < DepthLimit()
      ensures depth == if ok then old(depth) + 1 else old(depth)
    {
      depth := depth + 1;
      if depth > DepthLimit() {
        depth := depth - 1;
        return false;
      }
      return true;
    }

    method LeaveDepth()
      modifies this`depth
      ensures depth == if old(depth) > 0 then old(depth) - 1 else 0
    {
      if depth > 0 {
        depth := depth - 1;
      }
    }

    // ---- Skip ----

    /** Skip succeeds exactly on a well-formed value within the limits and stops right behind
        it, guards or not; recording captures exactly the bytes passed over; and the depth
        counter is restored whatever happens. */
    method Skip() returns (ok: bool)
      requires Valid()
      modifies this`pos, this`buf, this`rec, this`depth
      ensures Valid() && depth == old(depth) && pos >= old(pos) && (rec.Off? <==> old(rec).Off?)
      ensures ok <==> BoundedAt(input, old(pos), old(Below())).Ok?
      ensures ok ==> pos == BoundedAt(input, old(pos), old(Below())).end
      ensures ok ==> rec == Grow(old(rec), input[old(pos)..pos])
      decreases |input| - pos, 1
    {
      hide Parse;
      HeightPositiveAt(input, pos, Below());
      ok := EnterDepth();
      if !ok {
        return;
      }
      var c := ReadCode();
      if c.None? {
        ok := false;
      } else {
        ghost var start := pos;
        ok := SkipCode(c.value);
        GrowTwice(old(rec), input, old(pos), start, pos);
      }
      LeaveDepth();
    }

    /** The rest of a value whose code c has just been read. */
    method SkipCode(c: byte) returns (ok: bool)
      requires Valid() && 0 < pos && c == input[pos - 1]
      modifies this`pos, this`buf, this`rec, this`depth
      ensures Valid() && depth == old(depth) && pos >= old(pos) && (rec.Off? <==> old(rec).Off?)
      ensures ok <==> BoundedAt(input, old(pos) - 1, old(Here())).Ok?
      ensures ok ==> pos == BoundedAt(input, old(pos) - 1, old(Here())).end
      ensures ok ==> rec == Grow(old(rec), input[old(pos)..pos])
      decreases |input| - pos, 5
    {
      hide BoundedAt, FromBe, Signed, Grow, KindOf;
      KindTable(c);
      GrowTwice(rec, input, pos, pos, pos);
      if IsFixedMap(c) || c == MAP16 || c == MAP32 {
        ok := SkipMap(c);
        return;
      }
      if IsFixedArray(c) || c == ARRAY16 || c == ARRAY32 {
        ok := SkipSlice(c);
        return;
      }
      BoundedScalar(input, pos - 1, Here());
      if IsFixedNum(c) || c == NIL || c == FALSE || c == TRUE {
        return true;
      }
      if IsFixedString(c) || c == BIN8 || c == BIN16 || c == BIN32
         || c == STR8 || c == STR16 || c == STR32 {
        ok := SkipBytes(c);
        return;
      }
      if c == UINT8 || c == INT8 {
        ok := SkipN(1);
      } else if c == UINT16 || c == INT16 {
        ok := SkipN(2);
      } else if c == UINT32 || c == INT32 || c == FLOAT {
        ok := SkipN(4);
      } else if c == UINT64 || c == INT64 || c == DOUBLE {
        ok := SkipN(8);
      } else if IsExt(c) {
        ok := SkipExt(c);
      } else {
        ok := false;
      }
    }

    method SkipN(n: nat) returns (ok: bool)
      requires Valid()
      modifies this`pos, this`buf, this`rec
      ensures Valid() && pos >= old(pos) && (rec.Off? <==> old(rec).Off?)
      ensures ok <==> old(pos) + n <= |input|
      ensures ok ==> pos == old(pos) + n && rec == Grow(old(rec), input[old(pos)..pos])
    {
      var data;
      ok, data := ReadN(n);
    }

    method SkipBytes(c: byte) returns (ok: bool)
      requires Valid() && (KindOf(c) == StrCode || KindOf(c) == BinCode)
      modifies this`pos, this`buf, this`rec
      ensures Valid() && pos >= old(pos) && (rec.Off? <==> old(rec).Off?)
      ensures ok <==> Arg(input, old(pos), c).Ok?
                      && Arg(input, old(pos), c).end + Arg(input, old(pos), c).val <= |input|
      ensures ok ==> pos == Arg(input, old(pos), c).end + Arg(input, old(pos), c).val
      ensures ok ==> rec == Grow(old(rec), input[old(pos)..pos])
    {
      hide Arg;
      ArgBound(input, pos, c);
      CodeWidths(c);
      var n;
      ok, n := BytesLen(c);
      if !ok || n <= 0 {
        return;
      }
      ghost var start := pos;
      ok := SkipN(n);
      if ok { GrowTwice(old(rec), input, old(pos), start, pos); }
    }

    method SkipExt(c: byte) returns (ok: bool)
      requires Valid() && KindOf(c) == ExtCode
      modifies this`pos, this`buf, this`rec
      ensures Valid() && pos >= old(pos) && (rec.Off? <==> old(rec).Off?)
      ensures ok <==> Arg(input, old(pos), c).Ok?
                      && Arg(input, old(pos), c).end + 1 + Arg(input, old(pos), c).val <= |input|
      ensures ok ==> pos == Arg(input, old(pos), c).end + 1 + Arg(input, old(pos), c).val
      ensures ok ==> rec == Grow(old(rec), input[old(pos)..pos])
    {
      hide Arg;
      ArgBound(input, pos, c);
      CodeWidths(c);
      var n;
      ok, n := ParseExtLen(c);
      if !ok {
        return;
      }
      ghost var p1 := pos;
      ok := SkipN(1);
      if !ok {
        return;
      }
      ghost var p2 := pos;
      GrowTwice(old(rec), input, old(pos), p1, p2);
      ok := SkipN(n);
      if ok { GrowTwice(old(rec), input, old(pos), p2, pos); }
    }

    method SkipSlice(c: byte) returns (ok: bool)
      requires Valid() && 0 < pos && c == input[pos - 1] && KindOf(c) == ArrCode
      modifies this`pos, this`buf, this`rec, this`depth
      ensures Valid() && depth == old(depth) && pos >= old(pos) && (rec.Off? <==> old(rec).Off?)
      ensures ok <==> BoundedAt(input, old(pos) - 1, old(Here())).Ok?
      ensures ok ==> pos == BoundedAt(input, old(pos) - 1, old(Here())).end
      ensures ok ==> rec == Grow(old(rec), input[old(pos)..pos])
      decreases |input| - pos, 4
    {
      hide KindOf, Arg, BoundedAt, RowAt, Grow, Refused, IsMap, IsArray, IsExt, IsString, IsBin, IsFixedNum;
      KindTable(c);
      BoundedArr(input, pos - 1, sized, Here());
      var n;
      ok, n := ArrayLen(c);
      if !ok {
        return;
      }
      ghost var start := pos;
      ok := SkipNext(n);
      if ok { GrowTwice(old(rec), input, old(pos), start, pos); }
    }

    method SkipMap(c: byte) returns (ok: bool)
      requires Valid() && 0 < pos && c == input[pos - 1] && KindOf(c) == MapCode
      modifies this`pos, this`buf, this`rec, this`depth
      ensures Valid() && depth == old(depth) && pos >= old(pos) && (rec.Off? <==> old(rec).Off?)
      ensures ok <==> BoundedAt(input, old(pos) - 1, old(Here())).Ok?
      ensures ok ==> pos == BoundedAt(input, old(pos) - 1, old(Here())).end
      ensures ok ==> rec == Grow(old(rec), input[old(pos)..pos])
      decreases |input| - pos, 4
    {
      hide KindOf, Arg, BoundedAt, RowAt, Grow, Refused, IsMap, IsArray, IsExt, IsString, IsBin, IsFixedNum;
      KindTable(c);
      BoundedMap(input, pos - 1, sized, Here());
      var n;
      ok, n := MapLen(c);
      if !ok {
        return;
      }
      ghost var start := pos;
      ok := SkipNext(2 * n);
      if ok { GrowTwice(old(rec), input, old(pos), start, pos); }
    }

    /** n values in a row. */
    method SkipNext(n: nat) returns (ok: bool)
      requires Valid()
      modifies this`pos, this`buf, this`rec, this`depth
      ensures Valid() && depth == old(depth) && pos >= old(pos) && (rec.Off? <==> old(rec).Off?)
      ensures ok <==> RowAt(input, old(pos), n, old(Below())).Ok?
      ensures ok ==> pos == RowAt(input, old(pos), n, old(Below())).end
      ensures ok ==> rec == Grow(old(rec), input[old(pos)..pos])
      decreases |input| - pos, 2
    {
      hide BoundedAt, RowAt, Grow;
      RowEmpty(input, pos, Below());
      GrowTwice(rec, input, pos, pos, pos);
      var i: nat := 0;
      while i < n
        invariant i <= n && Valid() && depth == old(depth) && pos >= old(pos)
        invariant rec == Grow(old(rec), input[old(pos)..pos]) && (rec.Off? <==> old(rec).Off?)
        invariant Rejoins(input, old(pos), n, pos, n - i, Below())
      {
        RejoinStep(input, old(pos), n, pos, n - i, Below());
        ghost var before := pos;
        ok := Skip();
        if !ok {
          return;
        }
        GrowTwice(old(rec), input, old(pos), before, pos);
        i := i + 1;
      }
      RowEmpty(input, pos, Below());
      return true;
    }

    /** The raw bytes of the next value are exactly the ones Skip passes over, and recording is
        off again on every exit. */
    method DecodeRaw() returns (r: Option<bytes>)
      requires Valid()
      modifies this`pos, this`buf, this`rec, this`depth
      ensures Valid() && depth == old(depth) && rec == Off
      ensures r.Some? <==> BoundedAt(input, old(pos), old(Below())).Ok?
      ensures r.Some? ==>
        pos == BoundedAt(input, old(pos), old(Below())).end && r.value == input[old(pos)..pos]
    {
      rec := On([]);
      var ok := Skip();
      if !ok {
        rec := Off;
        return None;
      }
      r := Some(rec.data);
      rec := Off;
    }

    // ---- strings ----

    method StringWithLen(n: int) returns (r: Option<bytes>)
      requires Valid()
      modifies this`pos, this`buf, this`rec
      ensures Valid() && pos >= old(pos) && (rec.Off? <==> old(rec).Off?)
      ensures n <= 0 ==> r == Some([]) && pos == old(pos)
      ensures n > 0 ==> (r.Some? <==> old(pos) + n <= |input|)
      ensures n > 0 && r.Some? ==> pos == old(pos) + n && r.value == input[old(pos)..pos]
    {
      if n <= 0 {
        return Some([]);
      }
      var ok, data := ReadN(n);
      return if ok then Some(data) else None;
    }

    /** A string or byte string whose code c has just been read, interning aside. */
    method String(c: byte) returns (r: Option<bytes>)
      requires Valid() && 0 < pos && c == input[pos - 1]
      modifies this`pos, this`buf, this`rec
      ensures Valid() && pos >= old(pos) && (rec.Off? <==> old(rec).Off?)
      ensures Yields(r, pos, [], StringAt(false, input, old(pos) - 1, []))
    {
      hide StringAt, KindOf, Arg, Refused, Grow;
      StringPlain(input, pos - 1, c, sized);
      var ok, n := BytesLen(c);
      if !ok {
        return None;
      }
      ghost var p := pos;
      r := StringWithLen(n);
      assert input[p..p] == [];
    }

    /** A string or byte string whose code c has just been read, into the storage of b0; nil
        gives a nil slice. The scratch buffer and recording are not involved. */
    method Bytes(c: byte, b0: Buffer<byte>) returns (ok: bool, b: Buffer<byte>)
      requires Valid() && 0 < pos && c == input[pos - 1] && b0.Valid()
      modifies this`pos, this`buf, this`rec
      ensures Valid() && b.Valid() && pos >= old(pos) && (rec.Off? <==> old(rec).Off?)
      ensures match StringAt(false, input, old(pos) - 1, [])
              case Fail => !ok
              case Done(s, e, _) => ok && b.Contents() == s && pos == e && (b.NilBuffer? <==> c == NIL)
    {
      hide StringAt, KindOf, Arg, Refused, Grow, StartCap;
      StringPlain(input, pos - 1, c, sized);
      b := NilBuffer;
      var n;
      ok, n := BytesLen(c);
      if !ok || n == -1 {
        return;
      }
      if noAllocLimit {
        b, ok := ReadNPlain(b0, n);
      } else {
        ghost var excess;
        b, ok, excess := ReadNGrow(b0, n);
      }
    }

    /** The next code, left in place. */
    method PeekCode() returns (r: Option<byte>)
      requires Valid()
      ensures r == if pos < |input| then Some(input[pos]) else None
    {
      return if pos < |input| then Some(input[pos]) else None;
    }

    /** An array length at the reader. */
    method DecodeArrayLen() returns (ok: bool, n: int)
      requires Valid()
      modifies this`pos, this`buf, this`rec
      ensures Valid() && pos >= old(pos) && (rec.Off? <==> old(rec).Off?)
      ensures ok ==> n >= -1 && pos > old(pos)
      ensures if old(pos) >= |input| then !ok
        else if KindOf(input[old(pos)]) == ArrCode then
          && (ok <==> !Refused(input, old(pos) + 1, input[old(pos)], sized, LengthCap(), 1))
          && (ok ==> n >= 0 && Arg(input, old(pos) + 1, input[old(pos)]) == Ok(n, pos) && n <= LengthCap())
        else if input[old(pos)] == NIL then ok && n == -1 && pos == old(pos) + 1
        else !ok
    {
      hide KindOf, Arg, Refused;
      var c := ReadCode();
      if c.None? {
        return false, 0;
      }
      KindTable(c.value);
      ok, n := ArrayLen(c.value);
    }

    /** DecodeString for a caller that uses the result before the next read. */
    method DecodeStringTemp() returns (r: Option<bytes>)
      requires Valid()
      modifies this`pos, this`buf, this`rec, this`dict
      ensures Valid() && pos >= old(pos) && (rec.Off? <==> old(rec).Off?)
      ensures Yields(r, pos, dict, StringAt(intern, input, old(pos), old(dict)))
    {
      hide StringAt, KindOf, Arg, Refused;
      if intern || |dict| > 0 {
        r := DecodeInternedString(intern);
        return;
      }
      assert dict == [];
      var c := ReadCode();
      if c.None? {
        StringByCode(false, input, pos, []);
        return None;
      }
      StringPlain(input, pos - 1, c.value, sized);
      var ok, n := BytesLen(c.value);
      if !ok {
        return None;
      }
      if n == -1 {
        return Some([]);
      }
      var data;
      ok, data := ReadN(n);
      return if ok then Some(data) else None;
    }

    /** A string or map key: interned when interning is on or a dictionary is in place. */
    method DecodeString() returns (r: Option<bytes>)
      requires Valid()
      modifies this`pos, this`buf, this`rec, this`dict
      ensures Valid() && pos >= old(pos) && (rec.Off? <==> old(rec).Off?)
      ensures Yields(r, pos, dict, StringAt(intern, input, old(pos), old(dict)))
    {
      hide Parse;
      if intern || |dict| > 0 {
        r := DecodeInternedString(intern);
        return;
      }
      StringByCode(false, input, pos, []);
      var c := ReadCode();
      if c.None? {
        return None;
      }
      r := String(c.value);
    }

    method DecodeInternedString(intern: bool) returns (r: Option<bytes>)
      requires Valid() && (intern || |dict| > 0)
      modifies this`pos, this`buf, this`rec, this`dict
      ensures Valid() && pos >= old(pos) && (rec.Off? <==> old(rec).Off?)
      ensures Yields(r, pos, dict, StringAt(intern, input, old(pos), old(dict)))
    {
      hide StringAt, KindOf, Arg, IsFixedExt;
      var code := ReadCode();
      if code.None? {
        StringByCode(intern, input, pos, dict);
        return None;
      }
      var c := code.value;
      StringInterned(intern, input, pos - 1, c, dict);
      if c == NIL {
        return Some([]);
      }
      if c == FIXEXT1 || c == FIXEXT2 || c == FIXEXT4 {
        r := InternedReference(c);
        return;
      }
      if !IsString(c) && !IsBin(c) {
        return None;
      }
      var n := InternedLen(c);
      if n.None? {
        return None;
      }
      r := DecodeInternedStringWithLen(n.value, intern);
    }

    /** The length of a string in the interned reader, which has no guard of its own. */
    method InternedLen(c: byte) returns (r: Option<nat>)
      requires Valid() && (KindOf(c) == StrCode || KindOf(c) == BinCode)
      modifies this`pos, this`buf, this`rec
      ensures Valid() && pos >= old(pos) && (rec.Off? <==> old(rec).Off?)
      ensures match Arg(input, old(pos), c) case Err => r.None? case Ok(n, p) => r == Some(n) && pos == p
    {
      hide FromBe;
      if IsFixedString(c) {
        return Some(FixArg(c));
      }
      if c == STR8 || c == BIN8 {
        r := Uint8();
      } else if c == STR16 || c == BIN16 {
        r := Uint16();
      } else {
        r := Uint32();
      }
    }

    method DecodeInternedStringWithLen(n: nat, intern: bool) returns (r: Option<bytes>)
      requires Valid()
      modifies this`pos, this`buf, this`rec, this`dict
      ensures Valid() && pos >= old(pos) && (rec.Off? <==> old(rec).Off?)
      ensures r.Some? <==> old(pos) + n <= |input|
      ensures r.Some? ==> pos == old(pos) + n && r.value == input[old(pos)..pos]
      ensures r.Some? ==> dict == Remember(intern, old(dict), r.value)
    {
      if n <= 0 {
        assert input[pos..pos] == [];
        return Some([]);
      }
      r := StringWithLen(n);
      if r.None? {
        return;
      }
      if intern && |r.value| >= MIN_INTERNED_LEN && |dict| < MAX_DICT_LEN {
        dict := dict + [r.value];
      }
    }

    /** An ext header whose code has been read: the type, and the payload length. */
    method ExtHeader(c: byte) returns (ok: bool, id: int, n: nat)
      requires Valid() && KindOf(c) == ExtCode
      modifies this`pos, this`buf, this`rec
      ensures Valid() && pos >= old(pos) && (rec.Off? <==> old(rec).Off?)
      ensures ok ==>
        && Arg(input, old(pos), c).Ok? && n == Arg(input, old(pos), c).val
        && pos == Arg(input, old(pos), c).end + 1 && id == Signed(input[pos - 1], 1)
      ensures !ok ==> Arg(input, old(pos), c).Err?
                      || Arg(input, old(pos), c).end + 1 + Arg(input, old(pos), c).val > |input|
      ensures !ok ==> id == 0
    {
      hide Arg, Signed;
      ArgBound(input, pos, c);
      CodeWidths(c);
      ok, n := ParseExtLen(c);
      id := 0;
      if !ok {
        return;
      }
      var b := ReadCode();
      if b.None? {
        ok := false;
        return;
      }
      id := Signed(b.value, 1);
    }

    method InternedReference(c: byte) returns (r: Option<bytes>)
      requires Valid() && (c == FIXEXT1 || c == FIXEXT2 || c == FIXEXT4)
      modifies this`pos, this`buf, this`rec
      ensures Valid() && pos >= old(pos) && (rec.Off? <==> old(rec).Off?)
      ensures Yields(r, pos, dict, ReferenceAt(input, old(pos), FixArg(c), dict))
    {
      hide Signed, FromBe;
      var ok, id, n := ExtHeader(c);
      if !ok || id != INTERNED_ID {
        return None;
      }
      r := InternedStringAt(n);
    }

    /** Reads an index of extLen bytes and looks it up. */
    method InternedStringAt(extLen: nat) returns (r: Option<bytes>)
      requires Valid()
      modifies this`pos, this`buf, this`rec
      ensures Valid() && pos >= old(pos) && (rec.Off? <==> old(rec).Off?)
      ensures Yields(r, pos, dict,
                     if old(pos) + extLen <= |input|
                     then Finish(Lookup(dict, input[old(pos)..old(pos) + extLen]), old(pos) + extLen)
                     else Fail)
    {
      hide FromBe;
      var idx: Option<nat>;
      if extLen == 1 {
        idx := Uint8();
      } else if extLen == 2 {
        idx := Uint16();
      } else if extLen == 4 {
        idx := Uint32();
      } else {
        return None;
      }
      if idx.None? || idx.value >= |dict| {
        return None;
      }
      return Some(dict[idx.value]);
    }

    // ---- numbers ----

    /** The argument of a number code, at its own width. */
    method NumberArg(c: byte) returns (r: Option<nat>)
      requires Valid() && Numbers.IsNumber(c)
      modifies this`pos, this`buf, this`rec
      ensures Valid() && pos >= old(pos) && (rec.Off? <==> old(rec).Off?)
      ensures match Arg(input, old(pos), c) case Err => r.None? case Ok(a, p) => r == Some(a) && pos == p
    {
      hide FromBe;
      if c == UINT8 || c == INT8 {
        r := Uint8();
      } else if c == UINT16 || c == INT16 {
        r := Uint16();
      } else if c == UINT32 || c == INT32 || c == FLOAT {
        r := Uint32();
      } else {
        r := Uint64();
      }
    }

    /** A float whose code has been read, as a double. */
    method FloatBits(c: byte) returns (r: Option<nat>)
      requires Valid() && (c == FLOAT || c == DOUBLE)
      modifies this`pos, this`buf, this`rec
      ensures Valid() && pos >= old(pos) && (rec.Off? <==> old(rec).Off?)
      ensures match Arg(input, old(pos), c)
              case Err => r.None?
              case Ok(a, p) => r == Some(Numbers.Double(ArgWidth(c), a)) && pos == p
    {
      hide Arg, Floats.Widen32;
      r := NumberArg(c);
      if c == FLOAT && r.Some? {
        r := Some(Floats.Widen32(r.value));
      }
    }

    /** Any number where an int64 is wanted; c has just been read. */
    method Int(c: byte) returns (r: Option<int>)
      requires Valid() && 0 < pos && c == input[pos - 1]
      modifies this`pos, this`buf, this`rec
      ensures Valid() && pos >= old(pos) && (rec.Off? <==> old(rec).Off?)
      ensures match Numbers.IntAt(input, old(pos) - 1, wild)
              case Err => r.None?
              case Ok(n, e) => r == Some(n) && pos == e
    {
      hide Numbers.IntAt, Arg, Signed;
      Numbers.IntByCode(input, pos - 1, c, wild);
      if c == NIL {
        return Some(0);
      }
      if IsFixedNum(c) {
        return Some(Signed(c, 1));
      }
      if !Numbers.IsNumber(c) {
        return None;
      }
      if c == FLOAT || c == DOUBLE {
        hide Floats.ToInt64, Numbers.Double;
        var f := FloatBits(c);
        if f.None? {
          return None;
        }
        match Floats.ToInt64(f.value, wild) {
          case Refused => return None;
          case Converted(n) => return Some(n);
        }
      }
      var a := NumberArg(c);
      if a.None? {
        return None;
      }
      if c == UINT8 || c == UINT16 || c == UINT32 {
        return Some(a.value);
      }
      Numbers.SignedEight(a.value);
      return Some(Signed(a.value, ArgWidth(c)));
    }

    /** Any number where a uint64 is wanted; c has just been read. */
    method Uint(c: byte) returns (r: Option<int>)
      requires Valid() && 0 < pos && c == input[pos - 1]
      modifies this`pos, this`buf, this`rec
      ensures Valid() && pos >= old(pos) && (rec.Off? <==> old(rec).Off?)
      ensures match Numbers.UintAt(input, old(pos) - 1, wild)
              case Err => r.None?
              case Ok(n, e) => r == Some(n) && pos == e
    {
      hide Numbers.UintAt, Signed, Unsigned, Arg;
      Numbers.UintByCode(input, pos - 1, c, wild);
      if c == NIL {
        return Some(0);
      }
      if IsFixedNum(c) {
        return Some(Unsigned(Signed(c, 1), 8));
      }
      if !Numbers.IsNumber(c) {
        return None;
      }
      if c == FLOAT || c == DOUBLE {
        hide Floats.ToUint64, Numbers.Double, Arg;
        var f := FloatBits(c);
        if f.None? {
          return None;
        }
        match Floats.ToUint64(f.value, wild) {
          case Refused => return None;
          case Converted(n) => return Some(n);
        }
      }
      ArgBound(input, pos, c);
      var a := NumberArg(c);
      if a.None? {
        return None;
      }
      if c == INT8 || c == INT16 || c == INT32 {
        return Some(Unsigned(Signed(a.value, ArgWidth(c)), 8));
      }
      if c == INT64 { UnsignedOfSigned(a.value, 8); }
      return Some(a.value);
    }

    /** Any number where a float64 is wanted; c has just been read. */
    method Float64(c: byte) returns (r: Option<nat>)
      requires Valid() && 0 < pos && c == input[pos - 1]
      modifies this`pos, this`buf, this`rec
      ensures Valid() && pos >= old(pos) && (rec.Off? <==> old(rec).Off?)
      ensures match CompactFloats.FloatAt(Floats.Binary64, input, old(pos) - 1, wild)
              case Err => r.None?
              case Ok(f, e) => r == Some(f) && pos == e
    {
      hide CompactFloats.FloatAt, Numbers.IntAt, Numbers.Double, Arg, Rounding.FromInt64;
      CompactFloats.FloatByCode(input, pos - 1, c, wild);
      if c == FLOAT || c == DOUBLE {
        r := FloatBits(c);
      } else {
        var n := Int(c);
        r := if n.Some? then Some(Rounding.FromInt64(Floats.Binary64, n.value)) else None;
      }
    }

    method DecodeFloat64() returns (r: Option<nat>)
      requires Valid()
      modifies this`pos, this`buf, this`rec
      ensures Valid() && pos >= old(pos) && (rec.Off? <==> old(rec).Off?)
      ensures match CompactFloats.FloatAt(Floats.Binary64, input, old(pos), wild)
              case Err => r.None?
              case Ok(f, e) => r == Some(f) && pos == e
    {
      hide Parse, CompactFloats.FloatOf;
      Numbers.NothingThere(input, pos);
      var c := ReadCode();
      if c.None? {
        return None;
      }
      r := Float64(c.value);
    }

    /** Any number where a float32 is wanted; c has just been read. */
    method Float32(c: byte) returns (r: Option<nat>)
      requires Valid() && 0 < pos && c == input[pos - 1]
      modifies this`pos, this`buf, this`rec
      ensures Valid() && pos >= old(pos) && (rec.Off? <==> old(rec).Off?)
      ensures match CompactFloats.FloatAt(Floats.Binary32, input, old(pos) - 1, wild)
              case Err => r.None?
              case Ok(f, e) => r == Some(f) && pos == e
    {
      hide CompactFloats.FloatAt, Numbers.IntAt, Arg, Rounding.FromInt64;
      CompactFloats.Float32ByCode(input, pos - 1, c, wild);
      if c == FLOAT {
        r := NumberArg(c);
      } else {
        var n := Int(c);
        r := if n.Some? then Some(Rounding.FromInt64(Floats.Binary32, n.value)) else None;
      }
    }

    method DecodeFloat32() returns (r: Option<nat>)
      requires Valid()
      modifies this`pos, this`buf, this`rec
      ensures Valid() && pos >= old(pos) && (rec.Off? <==> old(rec).Off?)
      ensures match CompactFloats.FloatAt(Floats.Binary32, input, old(pos), wild)
              case Err => r.None?
              case Ok(f, e) => r == Some(f) && pos == e
    {
      hide Parse, CompactFloats.FloatOf;
      Numbers.NothingThere(input, pos);
      var c := ReadCode();
      if c.None? {
        return None;
      }
      r := Float32(c.value);
    }

    method DecodeInt64() returns (r: Option<int>)
      requires Valid()
      modifies this`pos, this`buf, this`rec
      ensures Valid() && pos >= old(pos) && (rec.Off? <==> old(rec).Off?)
      ensures match Numbers.IntAt(input, old(pos), wild)
              case Err => r.None?
              case Ok(n, e) => r == Some(n) && pos == e
    {
      hide Parse;
      Numbers.NothingThere(input, pos);
      var c := ReadCode();
      if c.None? {
        return None;
      }
      r := Int(c.value);
    }

    method DecodeUint64() returns (r: Option<int>)
      requires Valid()
      modifies this`pos, this`buf, this`rec
      ensures Valid() && pos >= old(pos) && (rec.Off? <==> old(rec).Off?)
      ensures match Numbers.UintAt(input, old(pos), wild)
              case Err => r.None?
              case Ok(n, e) => r == Some(n) && pos == e
    {
      hide Parse;
      Numbers.NothingThere(input, pos);
      var c := ReadCode();
      if c.None? {
        return None;
      }
      r := Uint(c.value);
    }

    /** A bool; nil is false. */
    method DecodeBool() returns (r: Option<bool>)
      requires Valid()
      modifies this`pos, this`rec
      ensures Valid() && pos >= old(pos) && (rec.Off? <==> old(rec).Off?)
      ensures match Numbers.BoolAt(input, old(pos))
              case Err => r.None?
              case Ok(b, e) => r == Some(b) && pos == e
    {
      hide Numbers.BoolAt;
      Numbers.BoolByCode(input, pos);
      var c := ReadCode();
      if c.None? {
        return None;
      }
      if c.value == NIL || c.value == FALSE {
        return Some(false);
      }
      if c.value == TRUE {
        return Some(true);
      }
      return None;
    }

    // ---- the interface decoder ----

    method DecodeInterfaceExt(c: byte) returns (r: Option<Value>)
      requires Valid() && 0 < pos && c == input[pos - 1] && KindOf(c) == ExtCode
      modifies this`pos, this`buf, this`rec
      ensures Valid() && pos >= old(pos) && (rec.Off? <==> old(rec).Off?)
      ensures Yields(r, pos, dict, match Arg(input, old(pos), c)
                                   case Err => Fail
                                   case Ok(n, p) => ExtAt(CurrentMode(), input, p, n, dict))
    {
      hide Arg, KindOf, Signed, Lookup, Time.Unpack;
      var ok, id, n := ExtHeader(c);
      if !ok {
        return None;
      }
      if id == INTERNED_ID {
        var s := InternedStringAt(n);
        return if s.Some? then Some(VStr(s.value)) else None;
      }
      var data;
      ok, data := ReadN(n);
      if !ok {
        return None;
      }
      if id == Time.TIME_ID {
        match Time.Unpack(data) {
          case Bad => return None;
          case Good(t) => return Some(VTime(t));
        }
      }
      return if registered(id, data) then Some(VExt(id, data)) else None;
    }

    /** A value that nests nothing, with the types the wire names. */
    method StrictScalar(c: byte) returns (r: Option<Value>)
      requires Valid() && 0 < pos && c == input[pos - 1] && !IsArray(c) && !IsMap(c)
      modifies this`pos, this`buf, this`rec
      ensures Valid() && pos >= old(pos) && (rec.Off? <==> old(rec).Off?)
      ensures Yields(r, pos, dict,
                     DecodeTopAt(false, CurrentMode(), input, old(pos) - 1, old(Here()), dict))
    {
      hide DecodeTopAt, StringAt, KindOf, Arg, ExtAt, Signed, NumberValue;
      ghost var lim := Here();
      KindTable(c);
      if IsString(c) {
        TopString(false, CurrentMode(), input, pos - 1, c, lim, dict);
        var s := String(c);
        return if s.Some? then Some(VStr(s.value)) else None;
      }
      if IsBin(c) {
        TopString(false, CurrentMode(), input, pos - 1, c, lim, dict);
        var ok, b := Bytes(c, NilBuffer);
        return if ok then Some(VBin(b.Contents())) else None;
      }
      if IsExt(c) {
        TopExt(false, CurrentMode(), input, pos - 1, c, lim, dict);
        r := DecodeInterfaceExt(c);
        return;
      }
      if Numbers.IsNumber(c) {
        TopNumber(false, CurrentMode(), input, pos - 1, c, lim, dict);
        r := StrictNumber(c);
        return;
      }
      TopSimple(false, CurrentMode(), input, pos - 1, c, lim, dict);
      if IsFixedNum(c) {
        return Some(VInt(1, Signed(c, 1)));
      }
      if c == NIL {
        return Some(VNil);
      }
      if c == FALSE || c == TRUE {
        return Some(VBool(c == TRUE));
      }
      return None;
    }

    method StrictNumber(c: byte) returns (r: Option<Value>)
      requires Valid() && Numbers.IsNumber(c)
      modifies this`pos, this`buf, this`rec
      ensures Valid() && pos >= old(pos) && (rec.Off? <==> old(rec).Off?)
      ensures match Arg(input, old(pos), c)
              case Err => r.None?
              case Ok(a, p) => r == Some(NumberValue(false, c, a)) && pos == p
    {
      hide Arg, Signed;
      var a := NumberArg(c);
      if a.None? {
        return None;
      }
      if c == FLOAT || c == DOUBLE {
        return Some(VFloat(ArgWidth(c), a.value));
      }
      if c == UINT8 || c == UINT16 || c == UINT32 || c == UINT64 {
        return Some(VUint(ArgWidth(c), a.value));
      }
      return Some(VInt(ArgWidth(c), Signed(a.value, ArgWidth(c))));
    }

    method LooseNumber(c: byte) returns (r: Option<Value>)
      requires Valid() && 0 < pos && c == input[pos - 1] && Numbers.IsNumber(c)
      modifies this`pos, this`buf, this`rec
      ensures Valid() && pos >= old(pos) && (rec.Off? <==> old(rec).Off?)
      ensures match Arg(input, old(pos), c)
              case Err => r.None?
              case Ok(a, p) => r == Some(NumberValue(true, c, a)) && pos == p
    {
      hide Arg, Signed, Unsigned, Numbers.IntAt, Numbers.UintAt, Numbers.Double;
      Numbers.IntByCode(input, pos - 1, c, wild);
      Numbers.UintByCode(input, pos - 1, c, wild);
      ArgBound(input, pos, c);
      if c == FLOAT || c == DOUBLE {
        var f := FloatBits(c);
        return if f.Some? then Some(VFloat(8, f.value)) else None;
      }
      if c == UINT8 || c == UINT16 || c == UINT32 || c == UINT64 {
        var n := Uint(c);
        return if n.Some? then Some(VUint(8, n.value)) else None;
      }
      var n := Int(c);
      return if n.Some? then Some(VInt(8, n.value)) else None;
    }

    /** A value that nests nothing, with numbers at full width and bytes as strings. */
    method LooseScalar(c: byte) returns (r: Option<Value>)
      requires Valid() && 0 < pos && c == input[pos - 1] && !IsArray(c) && !IsMap(c)
      modifies this`pos, this`buf, this`rec
      ensures Valid() && pos >= old(pos) && (rec.Off? <==> old(rec).Off?)
      ensures Yields(r, pos, dict,
                     DecodeTopAt(true, CurrentMode(), input, old(pos) - 1, old(Here()), dict))
    {
      hide DecodeTopAt, StringAt, KindOf, Arg, ExtAt, Signed, NumberValue;
      ghost var lim := Here();
      KindTable(c);
      if IsString(c) || IsBin(c) {
        TopString(true, CurrentMode(), input, pos - 1, c, lim, dict);
        var s := String(c);
        return if s.Some? then Some(VStr(s.value)) else None;
      }
      if IsExt(c) {
        TopExt(true, CurrentMode(), input, pos - 1, c, lim, dict);
        r := DecodeInterfaceExt(c);
        return;
      }
      if Numbers.IsNumber(c) {
        TopNumber(true, CurrentMode(), input, pos - 1, c, lim, dict);
        r := LooseNumber(c);
        return;
      }
      TopSimple(true, CurrentMode(), input, pos - 1, c, lim, dict);
      if IsFixedNum(c) {
        return Some(VInt(8, Signed(c, 1)));
      }
      if c == NIL {
        return Some(VNil);
      }
      if c == FALSE || c == TRUE {
        return Some(VBool(c == TRUE));
      }
      return None;
    }

    /** The elements of an array whose code c has just been read; nil is a nil slice, and any
        other code is refused. */
    method DecodeSlice(c: byte) returns (r: Option<Value>)
      requires Valid() && 0 < pos && c == input[pos - 1]
      modifies this`pos, this`buf, this`rec, this`dict, this`depth
      ensures Valid() && depth == old(depth) && pos >= old(pos) && (rec.Off? <==> old(rec).Off?)
      ensures
        if KindOf(c) == ArrCode then
          Yields(r, pos, dict, DecodeTopAt(false, CurrentMode(), input, old(pos) - 1, old(Here()), old(dict)))
        else if c == NIL then r == Some(VNil) && pos == old(pos) && dict == old(dict)
        else r.None?
      decreases |input| - pos, 5
    {
      hide DecodeTopAt, KindOf, Arg, Refused, ItemsAt, Grow, IsArray, IsMap, IsExt, IsString, IsBin, IsFixedNum;
      if KindOf(c) == ArrCode { TopArr(false, CurrentMode(), input, pos - 1, sized, Here(), dict); }
      KindTable(c);
      var ok, n := ArrayLen(c);
      if !ok {
        return None;
      }
      if n == -1 {
        return Some(VNil);
      }
      assert Deeper(Here()) == Below();
      var s := DecodeItems(n);
      return if s.Some? then Some(VArr(s.value)) else None;
    }

    /** n values in a row, appended to a slice one by one. */
    method DecodeItems(n: nat) returns (r: Option<seq<Value>>)
      requires Valid()
      modifies this`pos, this`buf, this`rec, this`dict, this`depth
      ensures Valid() && depth == old(depth) && pos >= old(pos) && (rec.Off? <==> old(rec).Off?)
      ensures Yields(r, pos, dict,
                     ItemsAt(CurrentMode(), input, old(pos), n, old(Below()), old(dict)))
      decreases |input| - pos, 4
    {
      hide ItemsAt, DecodeAt, Prepend;
      ghost var mode, lim := CurrentMode(), Below();
      ghost var all := ItemsAt(mode, input, pos, n, lim, dict);
      PrependEmpty(all);
      var s: seq<Value> := [];
      var i: nat := 0;
      while i < n
        invariant i <= n && Valid() && depth == old(depth) && pos >= old(pos)
        invariant rec.Off? <==> old(rec).Off?
        invariant all == Prepend(s, ItemsAt(mode, input, pos, n - i, lim, dict))
      {
        ItemsNext(s, mode, input, pos, n - i, lim, dict);
        var v := DecodeInterfaceCond();
        if v.None? {
          return None;
        }
        s := s + [v.value];
        i := i + 1;
      }
      ItemsDone(s, mode, input, pos, lim, dict);
      return Some(s);
    }

    /** Where the code after an ext header stands, or pos if there is no header. */
    static function BehindExtHeader(input: bytes, pos: nat): (q: nat)
      ensures pos < |input| && KindOf(input[pos]) != ExtCode ==> q == pos
    {
      if pos < |input| && KindOf(input[pos]) == ExtCode then pos + 2 + ExtHeaderLen(input[pos]) else pos
    }

    /** A map length at the reader, behind an ext header if there is one. */
    method DecodeMapLen() returns (ok: bool, n: int)
      requires Valid()
      modifies this`pos, this`buf, this`rec
      ensures Valid() && pos >= old(pos) && (rec.Off? <==> old(rec).Off?)
      ensures ok ==> n >= -1 && pos > old(pos)
      ensures var q := BehindExtHeader(input, old(pos));
        if q >= |input| then !ok
        else if KindOf(input[q]) == MapCode then
          && (ok <==> !Refused(input, q + 1, input[q], sized, LengthCap(), 2))
          && (ok ==> n >= 0 && Arg(input, q + 1, input[q]) == Ok(n, pos) && n <= LengthCap())
        else if input[q] == NIL then ok && n == -1 && pos == q + 1
        else !ok
    {
      hide KindOf, Arg, Refused;
      var c := ReadCode();
      if c.None? {
        return false, 0;
      }
      KindTable(c.value);
      if IsExt(c.value) {
        ok := SkipExtHeader(c.value);
        if !ok {
          return false, 0;
        }
        c := ReadCode();
        if c.None? {
          return false, 0;
        }
      }
      KindTable(c.value);
      ok, n := MapLen(c.value);
    }

    /** Passes over the type byte and the length bytes of an ext header. */
    method SkipExtHeader(c: byte) returns (ok: bool)
      requires Valid()
      modifies this`pos, this`rec
      ensures Valid() && pos >= old(pos) && (rec.Off? <==> old(rec).Off?)
      ensures ok ==> pos == old(pos) + 1 + ExtHeaderLen(c)
      ensures ok <==> old(pos) + 1 + ExtHeaderLen(c) <= |input|
    {
      var b := ReadCode();
      if b.None? {
        return false;
      }
      var i := 0;
      while i < ExtHeaderLen(c)
        invariant 0 <= i <= ExtHeaderLen(c) && Valid() && pos == old(pos) + 1 + i
        invariant rec.Off? <==> old(rec).Off?
      {
        b := ReadCode();
        if b.None? {
          return false;
        }
        i := i + 1;
      }
      return true;
    }

    static function ExtHeaderLen(c: byte): (n: nat)
      ensures IsExt(c) ==> n == ArgWidth(c)
    {
      if c == EXT8 then 1 else if c == EXT16 then 2 else if c == EXT32 then 4 else 0
    }

    /** A string-keyed map at the reader, behind an ext header if there is one; later entries
        replace earlier ones of the same key, and nil is a nil map. */
    method DecodeMap() returns (r: Option<Value>)
      requires Valid()
      modifies this`pos, this`buf, this`rec, this`dict, this`depth
      ensures Valid() && depth == old(depth) && pos >= old(pos) && (rec.Off? <==> old(rec).Off?)
      ensures var q := BehindExtHeader(input, old(pos));
        if q >= |input| then r.None?
        else if KindOf(input[q]) == MapCode then
          Yields(r, pos, dict, DecodeTopAt(false, CurrentMode(), input, q, old(Here()), old(dict)))
        else if input[q] == NIL then r == Some(VNil) && pos == q + 1 && dict == old(dict)
        else r.None?
      decreases |input| - pos, 1
    {
      hide DecodeTopAt, KindOf, Arg, Refused, EntriesAt, BehindExtHeader;
      ghost var q := BehindExtHeader(input, pos);
      if q < |input| && KindOf(input[q]) == MapCode {
        TopMap(false, CurrentMode(), input, q, sized, Here(), dict);
      }
      var ok, n := DecodeMapLen();
      if !ok {
        return None;
      }
      if n == -1 {
        return Some(VNil);
      }
      var m := DecodeEntries(n);
      return if m.Some? then Some(VMap(m.value)) else None;
    }

    /** n key-value pairs in a row, stored into a map one by one. */
    method DecodeEntries(n: nat) returns (r: Option<map<bytes, Value>>)
      requires Valid()
      modifies this`pos, this`buf, this`rec, this`dict, this`depth
      ensures Valid() && depth == old(depth) && pos >= old(pos) && (rec.Off? <==> old(rec).Off?)
      ensures Yields(r, pos, dict,
                     EntriesAt(CurrentMode(), input, old(pos), n, old(Below()), old(dict)))
      decreases |input| - pos, 4
    {
      hide EntriesAt, DecodeAt, StringAt, Under;
      ghost var mode, lim := CurrentMode(), Below();
      ghost var all := EntriesAt(mode, input, pos, n, lim, dict);
      UnderEmpty(all);
      var m: map<bytes, Value> := map[];
      var i: nat := 0;
      while i < n
        invariant i <= n && Valid() && depth == old(depth) && pos >= old(pos)
        invariant rec.Off? <==> old(rec).Off?
        invariant all == Under(m, EntriesAt(mode, input, pos, n - i, lim, dict))
      {
        EntriesNext(m, mode, input, pos, n - i, lim, dict);
        var k := DecodeString();
        if k.None? {
          return None;
        }
        var v := DecodeInterfaceCond();
        if v.None? {
          return None;
        }
        m := m[k.value := v.value];
        i := i + 1;
      }
      EntriesDone(m, mode, input, pos, lim, dict);
      return Some(m);
    }

    /** The value at the reader in the mode the flags select, one level down. */
    method DecodeInterfaceCond() returns (r: Option<Value>)
      requires Valid()
      modifies this`pos, this`buf, this`rec, this`dict, this`depth
      ensures Valid() && depth == old(depth) && pos >= old(pos) && (rec.Off? <==> old(rec).Off?)
      ensures r.Some? ==> pos > old(pos)
      ensures Yields(r, pos, dict, DecodeAt(CurrentMode(), input, old(pos), old(Below()), old(dict)))
      decreases |input| - pos, 3
    {
      hide DecodeTopAt, DecodeAt;
      TopIsDecode(CurrentMode(), input, pos, Below(), dict);
      DecodeAdvances(CurrentMode(), input, pos, Below(), dict);
      var ok := EnterDepth();
      if !ok {
        return None;
      }
      if loose {
        r := DecodeInterfaceLoose();
      } else {
        r := DecodeInterface();
      }
      LeaveDepth();
    }

    /** The value at the reader, with the types the wire names. Whatever the guards do, the
        outcome is the one the guard-free grammar gives within the depth limit. */
    method DecodeInterface() returns (r: Option<Value>)
      requires Valid()
      modifies this`pos, this`buf, this`rec, this`dict, this`depth
      ensures Valid() && depth == old(depth) && pos >= old(pos) && (rec.Off? <==> old(rec).Off?)
      ensures Yields(r, pos, dict,
                     DecodeTopAt(false, CurrentMode(), input, old(pos), old(Here()), old(dict)))
      decreases |input| - pos, 2
    {
      hide DecodeTopAt, KindOf, IsMap, IsArray, IsExt, IsString, IsBin, IsFixedNum;
      NothingLeft(false, CurrentMode(), input, pos, Here(), dict);
      var code := ReadCode();
      if code.None? {
        return None;
      }
      var c := code.value;
      KindTable(c);
      if IsMap(c) {
        pos := pos - 1;
        r := DecodeMap();
      } else if IsArray(c) {
        r := DecodeSlice(c);
      } else {
        r := StrictScalar(c);
      }
    }

    /** Like DecodeInterface, with numbers at full width and bytes as strings. */
    method DecodeInterfaceLoose() returns (r: Option<Value>)
      requires Valid()
      modifies this`pos, this`buf, this`rec, this`dict, this`depth
      ensures Valid() && depth == old(depth) && pos >= old(pos) && (rec.Off? <==> old(rec).Off?)
      ensures Yields(r, pos, dict,
                     DecodeTopAt(true, CurrentMode(), input, old(pos), old(Here()), old(dict)))
      decreases |input| - pos, 2
    {
      hide DecodeTopAt, KindOf, IsMap, IsArray, IsExt, IsString, IsBin, IsFixedNum;
      NothingLeft(true, CurrentMode(), input, pos, Here(), dict);
      ContainersIgnoreTop(CurrentMode(), input, pos, Here(), dict);
      var code := ReadCode();
      if code.None? {
        return None;
      }
      var c := code.value;
      KindTable(c);
      if IsMap(c) {
        pos := pos - 1;
        r := DecodeMap();
      } else if IsArray(c) {
        r := DecodeSlice(c);
      } else {
        r := LooseScalar(c);
      }
    }
  }
}
