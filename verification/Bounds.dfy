/** The grammar under the decoder's limits: nesting levels left and longest container. */
module Bounds {
  import opened Bytes
  import opened Codes
  import opened Wire

  /** Everything that bounds a decode besides the bytes: levels left, longest container. */
  datatype Limits = Limits(room: int, cap: nat)

  function Deeper(lim: Limits): Limits { lim.(room := lim.room - 1) }

  /** A value within the limits: what Skip must accept, and where it must stop. */
  function BoundedAt(input: bytes, pos: nat, lim: Limits): (r: Outcome<Wire>)
    ensures r.Ok? ==> pos < r.end <= |input|
  {
    match Parse(input, pos)
    case Err => Err
    case Ok(w, e) => if Fits(w, lim.room, lim.cap) then Ok(w, e) else Err
  }

  function RowAt(input: bytes, pos: nat, n: nat, lim: Limits): (r: Outcome<seq<Wire>>)
    ensures r.Ok? ==> pos + n <= r.end && (pos <= |input| ==> r.end <= |input|)
  {
    match ParseSeq(input, pos, n)
    case Err => Err
    case Ok(ws, e) => if FitsAll(ws, lim.room, lim.cap) then Ok(ws, e) else Err
  }

  lemma RowStep(input: bytes, pos: nat, n: nat, lim: Limits)
    requires n > 0
    ensures RowAt(input, pos, n, lim)
         == (match BoundedAt(input, pos, lim)
             case Err => Err
             case Ok(w, p) =>
               match RowAt(input, p, n - 1, lim)
               case Err => Err
               case Ok(ws, e) => Ok([w] + ws, e))
  {
    hide Parse, ParseSeq, Height, Width;
    ParseSeqStep(input, pos, n);
    if ParseSeq(input, pos, n).Ok? {
      var ws := ParseSeq(input, pos, n).val;
      assert ws == [ws[0]] + ws[1..];
    }
  }

  /** The guards: the number announced at p is missing, or more than the rest of the input can
      hold at minBytes bytes each, or over the cap when the reader does not tell its length. */
  ghost predicate Refused(input: bytes, p: nat, c: byte, sized: bool, cap: nat, minBytes: nat) {
    match Arg(input, p, c)
    case Err => true
    case Ok(a, e) => if sized then minBytes * a > |input| - e else a > cap
  }

  /** A value that nests nothing is within the limits as soon as one level is left. */
  lemma BoundedScalar(input: bytes, pos: nat, lim: Limits)
    requires pos < |input| && KindOf(input[pos]) != ArrCode && KindOf(input[pos]) != MapCode
    requires lim.room >= 1
    ensures BoundedAt(input, pos, lim)
         == (match Arg(input, pos + 1, input[pos])
             case Err => Err
             case Ok(a, p) => Scalar(input, input[pos], a, p))
  {
    hide KindOf, Arg;
  }

  lemma BoundedArr(input: bytes, pos: nat, sized: bool, lim: Limits)
    requires pos < |input| && KindOf(input[pos]) == ArrCode && lim.room >= 1
    ensures BoundedAt(input, pos, lim)
         == (match Arg(input, pos + 1, input[pos])
             case Err => Err
             case Ok(n, p) =>
               if n > lim.cap then Err else
               match RowAt(input, p, n, Deeper(lim))
               case Err => Err
               case Ok(ws, e) => Ok(WArr(ws), e))
    ensures Refused(input, pos + 1, input[pos], sized, lim.cap, 1) ==> BoundedAt(input, pos, lim).Err?
  {
    hide KindOf, Arg, ParseSeq, HeightAll, WidthAll;
  }

  lemma BoundedMap(input: bytes, pos: nat, sized: bool, lim: Limits)
    requires pos < |input| && KindOf(input[pos]) == MapCode && lim.room >= 1
    ensures BoundedAt(input, pos, lim)
         == (match Arg(input, pos + 1, input[pos])
             case Err => Err
             case Ok(n, p) =>
               if n > lim.cap then Err else
               match RowAt(input, p, 2 * n, Deeper(lim))
               case Err => Err
               case Ok(ws, e) => Ok(WMap(ws), e))
    ensures Refused(input, pos + 1, input[pos], sized, lim.cap, 2) ==> BoundedAt(input, pos, lim).Err?
  {
    hide KindOf, Arg, ParseSeq, HeightAll, WidthAll;
  }

  lemma HeightPositiveAt(input: bytes, pos: nat, lim: Limits)
    ensures BoundedAt(input, pos, lim).Ok? ==> lim.room >= 1
  {
    hide Parse;
  }

  /** A row at p and a shorter row at q succeed together and end together. */
  ghost predicate Rejoins(input: bytes, p: nat, n: nat, q: nat, m: nat, lim: Limits) {
    && (RowAt(input, p, n, lim).Ok? <==> RowAt(input, q, m, lim).Ok?)
    && (RowAt(input, p, n, lim).Ok? ==> RowAt(input, p, n, lim).end == RowAt(input, q, m, lim).end)
  }

  lemma RejoinStep(input: bytes, p: nat, n: nat, q: nat, m: nat, lim: Limits)
    requires m > 0 && Rejoins(input, p, n, q, m, lim)
    ensures BoundedAt(input, q, lim).Err? ==> RowAt(input, p, n, lim).Err?
    ensures BoundedAt(input, q, lim).Ok? ==>
      Rejoins(input, p, n, BoundedAt(input, q, lim).end, m - 1, lim)
  {
    hide RowAt, BoundedAt;
    RowStep(input, q, m, lim);
  }

  lemma RowEmpty(input: bytes, pos: nat, lim: Limits)
    requires lim.room >= 0
    ensures RowAt(input, pos, 0, lim) == Ok([], pos)
  {}

  /** Two or more values split into a pair and the rest. */
  lemma RowPair(input: bytes, pos: nat, m: nat, lim: Limits)
    requires m >= 2
    ensures RowAt(input, pos, m, lim)
         == (match BoundedAt(input, pos, lim)
             case Err => Err
             case Ok(k, p) =>
               match BoundedAt(input, p, lim)
               case Err => Err
               case Ok(v, p') =>
                 match RowAt(input, p', m - 2, lim)
                 case Err => Err
                 case Ok(ws, e) => Ok([k, v] + ws, e))
  {
    hide BoundedAt, RowAt;
    RowStep(input, pos, m, lim);
    if BoundedAt(input, pos, lim).Ok? {
      var Ok(k, p) := BoundedAt(input, pos, lim);
      RowStep(input, p, m - 1, lim);
      if BoundedAt(input, p, lim).Ok? {
        var Ok(v, p') := BoundedAt(input, p, lim);
        var rest := RowAt(input, p', m - 2, lim);
        if rest.Ok? {
          assert [k] + ([v] + rest.val) == [k, v] + rest.val;
        }
      }
    }
  }

  lemma RoomNeeded(input: bytes, lim: Limits)
    requires lim.room < 1
    ensures forall pos: nat :: BoundedAt(input, pos, lim).Err?
  {
    forall pos: nat ensures BoundedAt(input, pos, lim).Err? {
      HeightPositiveAt(input, pos, lim);
    }
  }
}
