/**
 Query: a third walk over the same bytes. It decodes only what a dotted path names and skips
 the rest, keeping its place with a flag that is set inside an asterisk.
 */
module Queries {
  import opened Bytes
  import opened Buffers
  import opened Codes
  import opened Wire
  import opened Bounds
  import opened Value

  const DOT: byte := 0x2e
  const STAR: bytes := [0x2a]

  // ---- paths ----

  function IndexOf(s: bytes, c: byte): (i: int)
    ensures -1 <= i < |s|
    ensures i >= 0 ==> s[i] == c && c !in s[..i]
    ensures i == -1 ==> c !in s
  {
    if s == [] then -1
    else if s[0] == c then 0
    else
      var j := IndexOf(s[1..], c);
      if j == -1 then -1 else
      assert s[..j + 1] == [s[0]] + s[1..][..j];
      j + 1
  }

  /** The text before the first dot, and the text after it. */
  function FirstKey(query: bytes): bytes {
    var i := IndexOf(query, DOT); if i == -1 then query else query[..i]
  }

  function RestOf(query: bytes): (r: bytes)
    ensures query != [] ==> |r| < |query|
  {
    var i := IndexOf(query, DOT); if i == -1 then [] else query[i + 1..]
  }

  /** The keys of a path, up to the first empty one, which asks for the whole value. */
  function Keys(query: bytes): seq<bytes>
    decreases |query|
  {
    if FirstKey(query) == [] then [] else [FirstKey(query)] + Keys(RestOf(query))
  }

  function Digits(s: bytes): Option<nat> {
    if s == [] then Some(0) else
    var d := s[|s| - 1];
    match Digits(s[..|s| - 1])
    case None => None
    case Some(n) => if 0x30 <= d <= 0x39 then Some(10 * n + (d - 0x30)) else None
  }

  /** strconv.Atoi: an optional sign, one or more digits, the range of an int. */
  function Atoi(s: bytes): Option<int> {
    var signed := s != [] && (s[0] == 0x2d || s[0] == 0x2b);
    var body := if signed then s[1..] else s;
    if body == [] then None else
    match Digits(body)
    case None => None
    case Some(n) =>
      var v: int := if signed && s[0] == 0x2d then 0 - n else n;
      if -0x8000_0000_0000_0000 <= v < 0x8000_0000_0000_0000 then Some(v) else None
  }

  // ---- paths and numbers, spelled out ----

  /** A query is its first key, the first dot and the rest; without a dot it is one key. */
  lemma FirstKeyAndRest(query: bytes)
    ensures DOT !in FirstKey(query)
    ensures DOT in query ==> query == FirstKey(query) + [DOT] + RestOf(query)
    ensures DOT !in query ==> FirstKey(query) == query && RestOf(query) == []
  {}

  /** The keys joined by dots. */
  function Spell(keys: seq<bytes>): bytes {
    if keys == [] then [] else if |keys| == 1 then keys[0] else keys[0] + [DOT] + Spell(keys[1..])
  }

  /** Non-empty keys without dots, joined by dots, are the keys of the path. */
  lemma {:induction false} KeysOfSpelled(keys: seq<bytes>)
    requires forall i :: 0 <= i < |keys| ==> keys[i] != [] && DOT !in keys[i]
    ensures Keys(Spell(keys)) == keys
    decreases keys
  {
    hide FirstKey, RestOf, IndexOf;
    if keys == [] {
      FirstKeyAndRest([]);
    } else {
      KeysOfSpelled(keys[1..]);
      KeysHead(keys[0], if |keys| == 1 then None else Some(Spell(keys[1..])));
      assert keys == [keys[0]] + keys[1..];
    }
  }

  lemma KeysHead(k: bytes, rest: Option<bytes>)
    requires k != [] && DOT !in k
    ensures var query := if rest.None? then k else k + [DOT] + rest.value;
      FirstKey(query) == k && RestOf(query) == (if rest.None? then [] else rest.value)
      && Keys(query) == [k] + Keys(if rest.None? then [] else rest.value)
  {
    if rest.Some? {
      var query := k + [DOT] + rest.value;
      FirstDot(k, rest.value);
      assert query[..|k|] == k && query[|k| + 1..] == rest.value;
    }
  }

  lemma {:induction false} FirstDot(k: bytes, rest: bytes)
    requires DOT !in k
    ensures IndexOf(k + [DOT] + rest, DOT) == |k|
    decreases k
  {
    var s := k + [DOT] + rest;
    if k == [] {
      assert s[0] == DOT;
    } else {
      FirstDot(k[1..], rest);
      assert s[0] == k[0] && s[1..] == k[1..] + [DOT] + rest;
    }
  }

  /** n in decimal. */
  function Decimal(n: nat): bytes {
    if n < 10 then [0x30 + n] else Decimal(n / 10) + [0x30 + n % 10]
  }

  function DecimalInt(n: int): bytes { if n < 0 then [0x2d] + Decimal(0 - n) else Decimal(n) }

  lemma {:induction false} DigitsOfDecimal(n: nat)
    ensures Digits(Decimal(n)) == Some(n)
    ensures Decimal(n) != [] && 0x30 <= Decimal(n)[0] <= 0x39
  {
    if n < 10 {
      assert Digits([]) == Some(0);
      assert [0x30 + n][..0] == [];
    } else {
      DigitsOfDecimal(n / 10);
      assert Decimal(n)[..|Decimal(n)| - 1] == Decimal(n / 10);
    }
  }

  /** The decimal text of every int is read as that int. */
  lemma AtoiOfDecimal(n: int)
    requires -TWO63 <= n < TWO63
    ensures Atoi(DecimalInt(n)) == Some(n)
  {
    DigitsOfDecimal(if n < 0 then 0 - n else n);
    if n < 0 { assert DecimalInt(n)[1..] == Decimal(0 - n); }
  }

  function Pow10(k: nat): nat { if k == 0 then 1 else 10 * Pow10(k - 1) }

  /** The value of a digit string, place by place from the left. */
  function PlaceValue(s: bytes): int {
    if s == [] then 0 else (s[0] - 0x30) * Pow10(|s| - 1) + PlaceValue(s[1..])
  }

  ghost predicate AllDigits(s: bytes) { forall i :: 0 <= i < |s| ==> 0x30 <= s[i] <= 0x39 }

  lemma {:induction false} PlaceValueLast(s: bytes, d: byte)
    ensures PlaceValue(s + [d]) == 10 * PlaceValue(s) + (d - 0x30)
    decreases s
  {
    if s == [] {
      assert [d][1..] == [] && PlaceValue([d]) == (d - 0x30) * Pow10(0) + PlaceValue([]);
      assert s + [d] == [d];
    } else {
      PlaceValueLast(s[1..], d);
      assert (s + [d])[1..] == s[1..] + [d];
      var c: int := s[0];
      TenTimes(c - 0x30, |s|);
    }
  }

  lemma TenTimes(d: int, k: nat)
    requires k > 0
    ensures d * Pow10(k) == 10 * (d * Pow10(k - 1))
  {}

  lemma {:induction false} DigitsArePlaces(s: bytes)
    ensures Digits(s).Some? <==> AllDigits(s)
    ensures Digits(s).Some? ==> Digits(s).value == PlaceValue(s)
    decreases |s|
  {
    if s == [] {
    } else {
      var front, d := s[..|s| - 1], s[|s| - 1];
      DigitsArePlaces(front);
      PlaceValueLast(front, d);
      assert s == front + [d];
    }
  }

  /** What is read as a number: an optional sign and one or more decimal digits whose value, with
      that sign, is an int; and it is read as that value. */
  lemma AtoiExact(s: bytes)
    ensures var signed := s != [] && (s[0] == 0x2d || s[0] == 0x2b);
      var body := if signed then s[1..] else s;
      var v := if s != [] && s[0] == 0x2d then 0 - PlaceValue(body) else PlaceValue(body);
      && (Atoi(s).Some? <==> body != [] && AllDigits(body) && -TWO63 <= v < TWO63)
      && (Atoi(s).Some? ==> Atoi(s).value == v)
  {
    DigitsArePlaces(if s != [] && (s[0] == 0x2d || s[0] == 0x2b) then s[1..] else s);
  }

  function StarCount(keys: seq<bytes>): nat {
    if keys == [] then 0 else (if keys[0] == STAR then 1 else 0) + StarCount(keys[1..])
  }

  // ---- what a path means on a tree ----

  function Join(a: Option<seq<Value>>, b: Option<seq<Value>>): Option<seq<Value>> {
    if a.Some? && b.Some? then Some(a.value + b.value) else None
  }

  /** The values a path selects: a key picks the first entry of that name, a number an element,
      an asterisk every element. What is not there selects nothing; asking a scalar for a key,
      or an array for something that is no number, is an error. */
  function Eval(mode: Mode, w: Wire, keys: seq<bytes>, dict: Dict): Option<seq<Value>>
    decreases |keys|, 1, 0
  {
    if keys == [] then
      (match Interp(mode, w, dict) case Bad => None case Got(v, _) => Some([v]))
    else
      match w
      case WMap(es) => EvalEntries(mode, es, keys, dict)
      case WArr(ws) =>
        if keys[0] == STAR then EvalAll(mode, ws, keys, dict)
        else
          (match Atoi(keys[0])
           case None => None
           case Some(i) => if 0 <= i < |ws| then Eval(mode, ws[i], keys[1..], dict) else Some([]))
      case _ => None
  }

  function EvalEntries(mode: Mode, es: seq<Wire>, keys: seq<bytes>, dict: Dict): Option<seq<Value>>
    requires keys != []
    decreases |keys|, 0, |es|
  {
    if |es| < 2 then Some([]) else
    match StringOf(false, es[0], dict)
    case Bad => None
    case Got(k, _) =>
      if k == keys[0] then Eval(mode, es[1], keys[1..], dict) else EvalEntries(mode, es[2..], keys, dict)
  }

  function EvalAll(mode: Mode, ws: seq<Wire>, keys: seq<bytes>, dict: Dict): Option<seq<Value>>
    requires keys != []
    decreases |keys|, 0, |ws|
  {
    if ws == [] then Some([])
    else Join(Eval(mode, ws[0], keys[1..], dict), EvalAll(mode, ws[1..], keys, dict))
  }

  /** A path without keys selects the whole value. */
  lemma EvalWhole(mode: Mode, w: Wire, dict: Dict)
    ensures Interp(mode, w, dict).Got? ==> Eval(mode, w, [], dict) == Some([Interp(mode, w, dict).val])
    ensures Interp(mode, w, dict).Bad? ==> Eval(mode, w, [], dict) == None
  {}

  /** A decimal key on an array selects that element, counted from zero; a number beyond its end,
      or a negative one, selects nothing. */
  lemma EvalElement(mode: Mode, ws: seq<Wire>, i: int, rest: seq<bytes>, dict: Dict)
    requires -TWO63 <= i < TWO63
    ensures Eval(mode, WArr(ws), [DecimalInt(i)] + rest, dict)
         == if 0 <= i < |ws| then Eval(mode, ws[i], rest, dict) else Some([])
  {
    AtoiOfDecimal(i);
    DigitsOfDecimal(if i < 0 then 0 - i else i);
    assert ([DecimalInt(i)] + rest)[1..] == rest;
    assert DecimalInt(i) != STAR;
  }

  /** Of equal keys the first entry is selected, whatever follows it. */
  lemma {:induction false} EvalFirst(mode: Mode, before: seq<Wire>, k: bytes, w: Wire, behind: seq<Wire>,
      rest: seq<bytes>, dict: Dict)
    requires |before| % 2 == 0
    requires forall i :: 0 <= i < |before| && i % 2 == 0 ==> before[i].WStr? && before[i].s != k
    ensures Eval(mode, WMap(before + [WStr(k), w] + behind), [k] + rest, dict) == Eval(mode, w, rest, dict)
    decreases before
  {
    var es := before + [WStr(k), w] + behind;
    assert ([k] + rest)[1..] == rest;
    if before == [] {
      assert es[0] == WStr(k) && es[1] == w;
    } else {
      EvalFirst(mode, before[2..], k, w, behind, rest, dict);
      assert es[2..] == before[2..] + [WStr(k), w] + behind && es[0] == before[0];
    }
  }

  /** A key that is not there selects nothing. */
  lemma {:induction false} EvalMissing(mode: Mode, es: seq<Wire>, k: bytes, rest: seq<bytes>, dict: Dict)
    requires forall i :: 0 <= i < |es| && i % 2 == 0 ==> es[i].WStr? && es[i].s != k
    ensures Eval(mode, WMap(es), [k] + rest, dict) == Some([])
    decreases es
  {
    if |es| < 2 {
    } else {
      EvalMissing(mode, es[2..], k, rest, dict);
      assert EvalEntries(mode, es, [k] + rest, dict) == EvalEntries(mode, es[2..], [k] + rest, dict);
    }
  }

  /** An asterisk selects from every element, in order; one error is an error of the whole. */
  lemma {:induction false} EvalEvery(mode: Mode, a: seq<Wire>, b: seq<Wire>, rest: seq<bytes>, dict: Dict)
    ensures Eval(mode, WArr([]), [STAR] + rest, dict) == Some([])
    ensures Eval(mode, WArr(a + b), [STAR] + rest, dict)
         == Join(Eval(mode, WArr(a), [STAR] + rest, dict), Eval(mode, WArr(b), [STAR] + rest, dict))
    ensures |b| == 1 ==> Eval(mode, WArr(b), [STAR] + rest, dict) == Eval(mode, b[0], rest, dict)
    decreases a
  {
    var keys := [STAR] + rest;
    assert keys[1..] == rest;
    if |b| == 1 {
      assert b[1..] == [] && EvalAll(mode, [], keys, dict) == Some([]);
      JoinNothing(Eval(mode, b[0], rest, dict));
    }
    if a == [] {
      assert a + b == b;
      JoinNothing(EvalAll(mode, b, keys, dict));
    } else {
      EvalEvery(mode, a[1..], b, rest, dict);
      assert (a + b)[1..] == a[1..] + b;
      JoinTwice(Eval(mode, a[0], rest, dict), EvalAll(mode, a[1..], keys, dict), EvalAll(mode, b, keys, dict));
    }
  }

  lemma JoinNothing(x: Option<seq<Value>>)
    ensures Join(Some([]), x) == x && Join(x, Some([])) == x
  {
    if x.Some? { assert [] + x.value == x.value && x.value + [] == x.value; }
  }

  lemma JoinTwice(x: Option<seq<Value>>, y: Option<seq<Value>>, z: Option<seq<Value>>)
    ensures Join(x, Join(y, z)) == Join(Join(x, y), z)
  {
    if x.Some? && y.Some? && z.Some? { assert x.value + (y.value + z.value) == x.value + y.value + z.value; }
  }

  /** Asking a scalar for a key, or an array for something that is neither a number nor an
      asterisk, is an error. */
  lemma EvalErrors(mode: Mode, w: Wire, k: bytes, rest: seq<bytes>, dict: Dict)
    requires !w.WMap? && (w.WArr? ==> k != STAR && Atoi(k).None?)
    ensures Eval(mode, w, [k] + rest, dict) == None
  {}

  // ---- what the query machine does on bytes ----

  datatype Env = Env(mode: Mode, input: bytes, sized: bool, lim: Limits)

  datatype Reply = Failed | Reply(vals: seq<Value>, end: nat, star: bool, dict: Dict)

  /** Inside an asterisk, the n values behind the one that was queried are skipped. */
  function Leave(env: Env, r: Reply, n: nat): Reply {
    if r.Failed? || !r.star then r else
    match RowAt(env.input, r.end, n, env.lim)
    case Err => Failed
    case Ok(_, e) => r.(end := e)
  }

  function Before(vals: seq<Value>, r: Reply): Reply {
    if r.Failed? then Failed else r.(vals := vals + r.vals)
  }

  ghost function Run(env: Env, pos: nat, keys: seq<bytes>, star: bool, dict: Dict): Reply
    decreases |keys|, 1, 0
  {
    if keys == [] then
      (match DecodeAt(env.mode, env.input, pos, env.lim, dict)
       case Fail => Failed
       case Done(v, e, d) => Reply([v], e, star, d))
    else if pos >= |env.input| then Failed
    else
      var c := env.input[pos];
      match KindOf(c)
      case MapCode =>
        if Refused(env.input, pos + 1, c, env.sized, env.lim.cap, 2) then Failed else
        var Ok(n, p) := Arg(env.input, pos + 1, c);
        RunEntries(env, p, n, keys, star, dict)
      case ArrCode =>
        if Refused(env.input, pos + 1, c, env.sized, env.lim.cap, 1) then Failed else
        var Ok(n, p) := Arg(env.input, pos + 1, c);
        if keys[0] == STAR then RunAll(env, p, n, keys, true, dict)
        else
          (match Atoi(keys[0])
           case None => Failed
           case Some(i) => RunIndex(env, p, n, i, keys, star, dict))
      case _ => Failed
  }

  ghost function RunEntries(env: Env, pos: nat, n: nat, keys: seq<bytes>, star: bool, dict: Dict): Reply
    requires keys != []
    decreases |keys|, 0, n
  {
    if n == 0 then Reply([], pos, star, dict) else
    match StringAt(env.mode.intern, env.input, pos, dict)
    case Fail => Failed
    case Done(k, p, d) =>
      if k == keys[0] then Leave(env, Run(env, p, keys[1..], star, d), 2 * (n - 1)) else
      match BoundedAt(env.input, p, env.lim)
      case Err => Failed
      case Ok(_, e) => RunEntries(env, e, n - 1, keys, star, d)
  }

  ghost function RunIndex(env: Env, pos: nat, n: nat, i: int, keys: seq<bytes>, star: bool, dict: Dict): Reply
    requires keys != []
    decreases |keys|, 0, n
  {
    if n == 0 then Reply([], pos, star, dict)
    else if i == 0 then Leave(env, Run(env, pos, keys[1..], star, dict), n - 1)
    else
      match BoundedAt(env.input, pos, env.lim)
      case Err => Failed
      case Ok(_, e) => RunIndex(env, e, n - 1, i - 1, keys, star, dict)
  }

  /** The loop of an asterisk. The flag is set once before it and cleared after it; in between
      each element starts with what the one before it left. */
  ghost function RunAll(env: Env, pos: nat, n: nat, keys: seq<bytes>, star: bool, dict: Dict): Reply
    requires keys != []
    decreases |keys|, 0, n
  {
    if n == 0 then Reply([], pos, false, dict) else
    match Run(env, pos, keys[1..], star, dict)
    case Failed => Failed
    case Reply(vs, p, s, d) => Before(vs, RunAll(env, p, n - 1, keys, s, d))
  }

  // ---- the machine computes the meaning, for paths with at most one asterisk ----

  ghost predicate Matches(r: Reply, v: Option<seq<Value>>, star: bool, end: nat, dict: Dict) {
    match v
    case None => r.Failed?
    case Some(vs) => r.Reply? && r.vals == vs && r.star == star && r.dict == dict && (star ==> r.end == end)
  }

  lemma {:induction false} RunIsEval(env: Env, pos: nat, keys: seq<bytes>, star: bool, dict: Dict)
    requires !env.mode.intern && StarCount(keys) <= 1 && (star ==> StarCount(keys) == 0)
    requires BoundedAt(env.input, pos, env.lim).Ok?
    ensures Matches(Run(env, pos, keys, star, dict),
                    Eval(env.mode, BoundedAt(env.input, pos, env.lim).val, keys, dict),
                    star, BoundedAt(env.input, pos, env.lim).end, dict)
    decreases |keys|, 1, 0
  {
    hide BoundedAt, KindOf, Arg, RowAt, Refused, RunEntries, RunIndex, RunAll, EvalEntries, EvalAll,
      Interp, Atoi, Scalar;
    var input, lim := env.input, env.lim;
    var Ok(w, e) := BoundedAt(input, pos, lim);
    if keys == [] {
      DictStays(env.mode, w, dict);
    } else {
      HeightPositiveAt(input, pos, lim);
      match KindOf(input[pos])
      case MapCode =>
        BoundedMap(input, pos, env.sized, lim);
        var Ok(n, p) := Arg(input, pos + 1, input[pos]);
        RunEntriesIsEval(env, p, n, keys, star, dict);
      case ArrCode =>
        BoundedArr(input, pos, env.sized, lim);
        var Ok(n, p) := Arg(input, pos + 1, input[pos]);
        if keys[0] == STAR { RunAllIsEval(env, p, n, keys, dict); }
        else if Atoi(keys[0]).Some? { RunIndexIsEval(env, p, n, Atoi(keys[0]).value, keys, star, dict); }
      case _ => ScalarLeaf(input, pos, lim);
    }
  }

  lemma ScalarLeaf(input: bytes, pos: nat, lim: Limits)
    requires BoundedAt(input, pos, lim).Ok?
    requires KindOf(input[pos]) != ArrCode && KindOf(input[pos]) != MapCode
    ensures !BoundedAt(input, pos, lim).val.WArr? && !BoundedAt(input, pos, lim).val.WMap?
  {
    hide KindOf, Arg;
    HeightPositiveAt(input, pos, lim);
    BoundedScalar(input, pos, lim);
  }

  lemma {:induction false} RunEntriesIsEval(env: Env, pos: nat, n: nat, keys: seq<bytes>, star: bool, dict: Dict)
    requires !env.mode.intern && keys != [] && StarCount(keys) <= 1 && (star ==> StarCount(keys) == 0)
    requires RowAt(env.input, pos, 2 * n, Deeper(env.lim)).Ok?
    ensures Matches(RunEntries(env, pos, n, keys, star, dict),
                    EvalEntries(env.mode, RowAt(env.input, pos, 2 * n, Deeper(env.lim)).val, keys, dict),
                    star, RowAt(env.input, pos, 2 * n, Deeper(env.lim)).end, dict)
    decreases |keys|, 0, n
  {
    hide BoundedAt, RowAt, Run, Eval, StringAt, StringOf;
    var input, lim, inner := env.input, env.lim, Deeper(env.lim);
    if n == 0 {
      RowZero(input, pos, inner);
    } else {
      RowPair(input, pos, 2 * n, inner);
      assert 2 * n - 2 == 2 * (n - 1);
      var Ok(k, p) := BoundedAt(input, pos, inner);
      var Ok(v, q) := BoundedAt(input, p, inner);
      var rest := RowAt(input, q, 2 * (n - 1), inner);
      assert RowAt(input, pos, 2 * n, inner).val[2..] == rest.val;
      Looser(input, pos, lim);
      Looser(input, p, lim);
      RowLooser(input, q, 2 * (n - 1), lim);
      StringBounded(false, input, pos, inner, dict);
      StringKeeps(k, dict);
      RunIsEval(env, p, keys[1..], star, dict);
      RunEntriesIsEval(env, q, n - 1, keys, star, dict);
    }
  }

  lemma {:induction false} RunIndexIsEval(env: Env, pos: nat, n: nat, i: int, keys: seq<bytes>, star: bool, dict: Dict)
    requires !env.mode.intern && keys != [] && StarCount(keys) <= 1 && (star ==> StarCount(keys) == 0)
    requires RowAt(env.input, pos, n, Deeper(env.lim)).Ok?
    ensures var ws := RowAt(env.input, pos, n, Deeper(env.lim)).val;
      Matches(RunIndex(env, pos, n, i, keys, star, dict),
              if 0 <= i < |ws| then Eval(env.mode, ws[i], keys[1..], dict) else Some([]),
              star, RowAt(env.input, pos, n, Deeper(env.lim)).end, dict)
    decreases |keys|, 0, n
  {
    hide BoundedAt, RowAt, Run, Eval;
    var input, lim, inner := env.input, env.lim, Deeper(env.lim);
    RowLength(input, pos, n, inner);
    if n == 0 {
      RowZero(input, pos, inner);
    } else {
      RowStep(input, pos, n, inner);
      var Ok(w, p) := BoundedAt(input, pos, inner);
      Looser(input, pos, lim);
      RowLooser(input, p, n - 1, lim);
      RowLength(input, p, n - 1, inner);
      if i == 0 { RunIsEval(env, pos, keys[1..], star, dict); }
      else { RunIndexIsEval(env, p, n - 1, i - 1, keys, star, dict); }
    }
  }

  /** Inside an asterisk each element's query ends exactly at the end of that element. */
  lemma {:induction false} RunAllIsEval(env: Env, pos: nat, n: nat, keys: seq<bytes>, dict: Dict)
    requires !env.mode.intern && keys != [] && StarCount(keys[1..]) == 0
    requires RowAt(env.input, pos, n, Deeper(env.lim)).Ok?
    ensures var r := RunAll(env, pos, n, keys, true, dict);
      match EvalAll(env.mode, RowAt(env.input, pos, n, Deeper(env.lim)).val, keys, dict)
      case None => r.Failed?
      case Some(vs) => r == Reply(vs, RowAt(env.input, pos, n, Deeper(env.lim)).end, false, dict)
    decreases |keys|, 0, n
  {
    hide BoundedAt, RowAt, Run, Eval;
    var input, lim, inner := env.input, env.lim, Deeper(env.lim);
    if n == 0 {
      RowZero(input, pos, inner);
    } else {
      RowStep(input, pos, n, inner);
      var Ok(w, p) := BoundedAt(input, pos, inner);
      var ws := RowAt(input, pos, n, inner).val;
      assert ws[0] == w && ws[1..] == RowAt(input, p, n - 1, inner).val;
      Looser(input, pos, lim);
      RunIsEval(env, pos, keys[1..], true, dict);
      RunAllIsEval(env, p, n - 1, keys, dict);
    }
  }

  // ---- with two asterisks there is always a stream it misreads ----

  /** Maps of one entry each, leading to x. */
  function Nest(keys: seq<bytes>, x: Wire): Wire {
    if keys == [] then x else WMap([WStr(keys[0]), Nest(keys[1..], x)])
  }

  /** A map whose first entry answers the key and whose second is left over. */
  function Leftover(key: bytes): Wire { WMap([WStr(key), WMap([]), WStr([]), WNil]) }

  /** Three elements under the asterisk at i: the first runs the one at k and so clears the
      flag, the second is then left half read, and the third is looked for in what is left. */
  function Trap(keys: seq<bytes>, i: nat, k: nat): Wire
    requires i < k < |keys|
  {
    Nest(keys[..i], WArr([Nest(keys[i + 1..k], WArr([])), Leftover(keys[i + 1]), WMap([])]))
  }

  /** A one-entry map is walked straight through. */
  lemma RunSingle(env: Env, pos: nat, keys: seq<bytes>, x: Wire, star: bool) returns (q: nat)
    requires !env.mode.intern && keys != []
    requires BoundedAt(env.input, pos, env.lim).Ok?
    requires BoundedAt(env.input, pos, env.lim).val == WMap([WStr(keys[0]), x])
    ensures BoundedAt(env.input, q, env.lim) == Ok(x, BoundedAt(env.input, pos, env.lim).end)
    ensures Run(env, pos, keys, star, []) == Run(env, q, keys[1..], star, [])
  {
    hide BoundedAt, KindOf, Arg, RowAt, Refused, StringAt;
    var n, p := EnterMap(env, pos, keys, star);
    assert n == 1;
    q := FirstEntry(env, p, 1, keys, star);
    assert 2 * (1 - 1) == 0;
    LeaveNothing(env, Run(env, q, keys[1..], star, []));
    RowStartsAtEnd(env.input, BoundedAt(env.input, q, env.lim).end, Deeper(env.lim));
  }

  lemma LeaveNothing(env: Env, r: Reply)
    requires env.lim.room >= 0
    ensures Leave(env, r, 0) == r
  {
    if r.Reply? { RowEmpty(env.input, r.end, env.lim); }
  }

  lemma RowStartsAtEnd(input: bytes, pos: nat, lim: Limits)
    ensures RowAt(input, pos, 0, lim).Ok? ==> RowAt(input, pos, 0, lim).end == pos
  {}

  /** At a map the machine goes on to its entries. */
  lemma EnterMap(env: Env, pos: nat, keys: seq<bytes>, star: bool) returns (n: nat, p: nat)
    requires keys != [] && BoundedAt(env.input, pos, env.lim).Ok?
    requires BoundedAt(env.input, pos, env.lim).val.WMap?
    ensures var w := BoundedAt(env.input, pos, env.lim);
      && RowAt(env.input, p, 2 * n, Deeper(env.lim)) == Ok(w.val.entries, w.end)
      && |w.val.entries| == 2 * n && env.lim.room >= 1
    ensures Run(env, pos, keys, star, []) == RunEntries(env, p, n, keys, star, [])
  {
    hide BoundedAt, KindOf, Arg, RowAt, Refused, RunEntries, RunAll, RunIndex;
    HeightPositiveAt(env.input, pos, env.lim);
    ContainerKind(env.input, pos, env.lim);
    BoundedMap(env.input, pos, env.sized, env.lim);
    n, p := Arg(env.input, pos + 1, env.input[pos]).val, Arg(env.input, pos + 1, env.input[pos]).end;
    RowLength(env.input, p, 2 * n, Deeper(env.lim));
  }

  lemma EnterArray(env: Env, pos: nat, keys: seq<bytes>, star: bool) returns (n: nat, p: nat)
    requires keys != [] && keys[0] == STAR && BoundedAt(env.input, pos, env.lim).Ok?
    requires BoundedAt(env.input, pos, env.lim).val.WArr?
    ensures var w := BoundedAt(env.input, pos, env.lim);
      RowAt(env.input, p, n, Deeper(env.lim)) == Ok(w.val.items, w.end) && |w.val.items| == n
    ensures Run(env, pos, keys, star, []) == RunAll(env, p, n, keys, true, [])
  {
    hide BoundedAt, KindOf, Arg, RowAt, Refused, RunEntries, RunAll, RunIndex;
    HeightPositiveAt(env.input, pos, env.lim);
    ContainerKind(env.input, pos, env.lim);
    BoundedArr(env.input, pos, env.sized, env.lim);
    n, p := Arg(env.input, pos + 1, env.input[pos]).val, Arg(env.input, pos + 1, env.input[pos]).end;
    RowLength(env.input, p, n, Deeper(env.lim));
  }

  lemma ContainerKind(input: bytes, pos: nat, lim: Limits)
    requires BoundedAt(input, pos, lim).Ok?
    ensures pos < |input|
    ensures BoundedAt(input, pos, lim).val.WMap? ==> KindOf(input[pos]) == MapCode
    ensures BoundedAt(input, pos, lim).val.WArr? ==> KindOf(input[pos]) == ArrCode
    ensures BoundedAt(input, pos, lim).val.WStr? ==> KindOf(input[pos]) == StrCode
  {
    hide KindOf, Arg, ParseSeq, Signed;
  }

  /** The first entry answers the key: its value is queried, and then left. */
  lemma FirstEntry(env: Env, pos: nat, n: nat, keys: seq<bytes>, star: bool) returns (q: nat)
    requires !env.mode.intern && keys != [] && n > 0
    requires RowAt(env.input, pos, 2 * n, Deeper(env.lim)).Ok?
    requires RowAt(env.input, pos, 2 * n, Deeper(env.lim)).val[0] == WStr(keys[0])
    ensures var row := RowAt(env.input, pos, 2 * n, Deeper(env.lim));
      && BoundedAt(env.input, q, env.lim).Ok? && BoundedAt(env.input, q, env.lim).val == row.val[1]
      && RowAt(env.input, BoundedAt(env.input, q, env.lim).end, 2 * (n - 1), Deeper(env.lim))
         == Ok(row.val[2..], row.end)
    ensures RunEntries(env, pos, n, keys, star, []) == Leave(env, Run(env, q, keys[1..], star, []), 2 * (n - 1))
  {
    hide BoundedAt, RowAt, Run, StringAt, StringOf;
    var input, inner := env.input, Deeper(env.lim);
    RowPair(input, pos, 2 * n, inner);
    assert 2 * n - 2 == 2 * (n - 1);
    q := BoundedAt(input, pos, inner).end;
    var rest := RowAt(input, BoundedAt(input, q, inner).end, 2 * (n - 1), inner);
    assert RowAt(input, pos, 2 * n, inner).val[2..] == rest.val;
    Looser(input, pos, env.lim);
    Looser(input, q, env.lim);
    StringBounded(false, input, pos, inner, []);
    PlainString(keys[0]);
  }

  lemma PlainString(s: bytes)
    ensures StringOf(false, WStr(s), []) == Got(s, [])
  {}

  lemma {:induction false} RunNest(env: Env, pos: nat, pre: seq<bytes>, x: Wire, rest: seq<bytes>, star: bool)
    returns (q: nat)
    requires !env.mode.intern && BoundedAt(env.input, pos, env.lim).Ok?
    requires BoundedAt(env.input, pos, env.lim).val == Nest(pre, x)
    ensures BoundedAt(env.input, q, env.lim) == Ok(x, BoundedAt(env.input, pos, env.lim).end)
    ensures Run(env, pos, pre + rest, star, []) == Run(env, q, rest, star, [])
    decreases pre
  {
    hide BoundedAt, Run;
    if pre == [] {
      q := pos;
      assert pre + rest == rest;
    } else {
      assert (pre + rest)[1..] == pre[1..] + rest;
      var p := RunSingle(env, pos, pre + rest, Nest(pre[1..], x), star);
      q := RunNest(env, p, pre[1..], x, rest, star);
    }
  }

  /** The first element: walked to its end, it leaves the flag cleared. */
  lemma RunClears(env: Env, pos: nat, pre: seq<bytes>, rest: seq<bytes>)
    requires !env.mode.intern && rest != [] && rest[0] == STAR
    requires BoundedAt(env.input, pos, env.lim).Ok?
    requires BoundedAt(env.input, pos, env.lim).val == Nest(pre, WArr([]))
    ensures Run(env, pos, pre + rest, true, []) == Reply([], BoundedAt(env.input, pos, env.lim).end, false, [])
  {
    hide BoundedAt, Run, RowAt;
    var q := RunNest(env, pos, pre, WArr([]), rest, true);
    var n, p := EnterArray(env, q, rest, true);
    RowStartsAtEnd(env.input, p, Deeper(env.lim));
  }

  /** The second element: with the flag cleared its second entry stays unread. */
  lemma RunHalf(env: Env, pos: nat, keys: seq<bytes>) returns (vs: seq<Value>, q: nat)
    requires !env.mode.intern && keys != [] && BoundedAt(env.input, pos, env.lim).Ok?
    requires BoundedAt(env.input, pos, env.lim).val == Leftover(keys[0])
    ensures Run(env, pos, keys, false, []) == Reply(vs, q, false, [])
    ensures q < |env.input| && KindOf(env.input[q]) == StrCode
  {
    hide BoundedAt, RowAt, KindOf, Run;
    var n, p := EnterMap(env, pos, keys, false);
    assert n == 2;
    var r := FirstEntry(env, p, 2, keys, false);
    q := BoundedAt(env.input, r, env.lim).end;
    vs := RunEmpty(env, r, keys[1..]);
    var inner, es := Deeper(env.lim), Leftover(keys[0]).entries;
    assert 2 * (2 - 1) == 2 && RowAt(env.input, q, 2, inner).val == es[2..];
    RowStep(env.input, q, 2, inner);
    assert BoundedAt(env.input, q, inner).val == es[2..][0] == WStr([]);
    ContainerKind(env.input, q, inner);
  }

  /** An empty map answers any path, with nothing or with itself. */
  lemma RunEmpty(env: Env, pos: nat, keys: seq<bytes>) returns (vs: seq<Value>)
    requires BoundedAt(env.input, pos, env.lim).Ok? && BoundedAt(env.input, pos, env.lim).val == WMap([])
    ensures Run(env, pos, keys, false, []) == Reply(vs, BoundedAt(env.input, pos, env.lim).end, false, [])
  {
    hide BoundedAt, RowAt, KindOf, Refused, Arg;
    if keys == [] {
      vs := [VMap(map[])];
      EmptyMap(env.mode);
    } else {
      vs := [];
      var n, p := EnterMap(env, pos, keys, false);
      assert n == 0 && 2 * n == 0;
      RowStartsAtEnd(env.input, p, Deeper(env.lim));
    }
  }

  lemma EmptyMap(mode: Mode)
    ensures Interp(mode, WMap([]), []) == Got(VMap(map[]), [])
  {}

  lemma {:induction false} EvalNest(mode: Mode, pre: seq<bytes>, x: Wire, rest: seq<bytes>)
    ensures Eval(mode, Nest(pre, x), pre + rest, []) == Eval(mode, x, rest, [])
    decreases pre
  {
    hide Interp, StringOf;
    if pre == [] {
      assert pre + rest == rest;
    } else {
      assert (pre + rest)[1..] == pre[1..] + rest;
      PlainString(pre[0]);
      EvalNest(mode, pre[1..], x, rest);
    }
  }

  /** The trap springs: the path has an answer on the tree, and the machine fails. */
  lemma TrapSprings(env: Env, pos: nat, keys: seq<bytes>, i: nat, k: nat)
    requires !env.mode.intern && i < k < |keys| && keys[i] == STAR && keys[k] == STAR
    requires BoundedAt(env.input, pos, env.lim).Ok? && BoundedAt(env.input, pos, env.lim).val == Trap(keys, i, k)
    ensures Eval(env.mode, Trap(keys, i, k), keys, []).Some?
    ensures Run(env, pos, keys, false, []).Failed?
  {
    hide BoundedAt, RowAt, KindOf, Run, Eval, Nest;
    var rest, tail, mid := keys[i..], keys[i + 1..], keys[i + 1..k];
    var a := Nest(mid, WArr([]));
    var items := [a, Leftover(keys[i + 1]), WMap([])];
    assert keys == keys[..i] + rest && rest[1..] == tail && tail == mid + keys[k..];
    var q := RunNest(env, pos, keys[..i], WArr(items), rest, false);
    var n, p := EnterArray(env, q, rest, false);
    TrapLoop(env, p, a, mid, keys[k..], rest);
    EvalNest(env.mode, keys[..i], WArr(items), rest);
    TrapEval(env.mode, mid, keys[k..], rest);
  }

  lemma TrapLoop(env: Env, p: nat, a: Wire, mid: seq<bytes>, last: seq<bytes>, rest: seq<bytes>)
    requires !env.mode.intern && last != [] && last[0] == STAR && rest != [] && rest[1..] == mid + last
    requires a == Nest(mid, WArr([]))
    requires RowAt(env.input, p, 3, Deeper(env.lim)).Ok?
    requires RowAt(env.input, p, 3, Deeper(env.lim)).val == [a, Leftover((mid + last)[0]), WMap([])]
    ensures RunAll(env, p, 3, rest, true, []).Failed?
  {
    hide BoundedAt, RowAt, KindOf, Nest, Leftover;
    var inner := Deeper(env.lim);
    var row := RowAt(env.input, p, 3, inner).val;
    RowStep(env.input, p, 3, inner);
    assert BoundedAt(env.input, p, inner).val == row[0];
    Looser(env.input, p, env.lim);
    RunClears(env, p, mid, last);
    var p2 := BoundedAt(env.input, p, inner).end;
    RowStep(env.input, p2, 2, inner);
    assert RowAt(env.input, p2, 2, inner).val == row[1..];
    assert BoundedAt(env.input, p2, inner).val == row[1..][0] == row[1];
    Looser(env.input, p2, env.lim);
    var vs, q := RunHalf(env, p2, mid + last);
    assert Run(env, q, rest[1..], false, []).Failed?;
    assert RunAll(env, q, 1, rest, false, []).Failed?;
    assert RunAll(env, p2, 2, rest, false, []).Failed?;
  }

  lemma TrapEval(mode: Mode, mid: seq<bytes>, last: seq<bytes>, rest: seq<bytes>)
    requires last != [] && last[0] == STAR && rest != [] && rest[0] == STAR && rest[1..] == mid + last
    ensures Eval(mode, WArr([Nest(mid, WArr([])), Leftover((mid + last)[0]), WMap([])]), rest, []).Some?
  {
    hide Nest, Interp, StringOf;
    var a, b, c := Nest(mid, WArr([])), Leftover((mid + last)[0]), WMap([]);
    var keys := rest[1..];
    EvalNest(mode, mid, WArr([]), last);
    assert Eval(mode, a, keys, []).Some?;
    EmptyMap(mode);
    PlainString(keys[0]);
    assert Eval(mode, WMap([]), keys[1..], []).Some?;
    assert Eval(mode, b, keys, []).Some?;
    assert Eval(mode, c, keys, []).Some?;
    assert [a, b, c][1..] == [b, c] && [b, c][1..] == [c] && [c][1..] == [];
    assert EvalAll(mode, [c], rest, []).Some?;
    assert EvalAll(mode, [b, c], rest, []).Some?;
    assert EvalAll(mode, [a, b, c], rest, []).Some?;
  }

  // ---- main result ----

  /** With interning off, from any dictionary, on every well-formed stream within the limits and
      on either kind of reader, the query returns exactly what the path means on the tree: same
      values, same order, same errors. */
  ghost predicate Faithful(keys: seq<bytes>) {
    forall env: Env, pos: nat, dict: Dict :: !env.mode.intern && BoundedAt(env.input, pos, env.lim).Ok? ==>
      Matches(Run(env, pos, keys, false, dict),
              Eval(env.mode, BoundedAt(env.input, pos, env.lim).val, keys, dict),
              false, BoundedAt(env.input, pos, env.lim).end, dict)
  }

  /** A path is always answered right exactly when it holds at most one asterisk. */
  lemma FaithfulPaths(keys: seq<bytes>)
    requires forall i :: 0 <= i < |keys| ==> |keys[i]| < MAX_LEN
    ensures Faithful(keys) <==> StarCount(keys) <= 1
  {
    hide BoundedAt, Run, Eval, StarCount, Trap;
    if StarCount(keys) <= 1 {
      forall env: Env, pos: nat, dict: Dict | !env.mode.intern && BoundedAt(env.input, pos, env.lim).Ok?
        ensures Matches(Run(env, pos, keys, false, dict),
                        Eval(env.mode, BoundedAt(env.input, pos, env.lim).val, keys, dict),
                        false, BoundedAt(env.input, pos, env.lim).end, dict)
      {
        RunIsEval(env, pos, keys, false, dict);
      }
    } else {
      var i, k := TwoStars(keys);
      var env := TrapStream(keys, i, k);
      TrapSprings(env, 0, keys, i, k);
    }
  }

  lemma {:induction false} TwoStars(keys: seq<bytes>) returns (i: nat, k: nat)
    requires StarCount(keys) >= 2
    ensures i < k < |keys| && keys[i] == STAR && keys[k] == STAR
    decreases keys
  {
    if keys[0] == STAR {
      i := 0;
      k := OneStar(keys[1..]);
      k := k + 1;
    } else {
      i, k := TwoStars(keys[1..]);
      i, k := i + 1, k + 1;
    }
  }

  lemma {:induction false} OneStar(keys: seq<bytes>) returns (i: nat)
    requires StarCount(keys) >= 1
    ensures i < |keys| && keys[i] == STAR
    decreases keys
  {
    if keys[0] == STAR { i := 0; } else { i := OneStar(keys[1..]); i := i + 1; }
  }

  lemma TrapStream(keys: seq<bytes>, i: nat, k: nat) returns (env: Env)
    requires i < k < |keys| && forall j :: 0 <= j < |keys| ==> |keys[j]| < MAX_LEN
    ensures !env.mode.intern && BoundedAt(env.input, 0, env.lim).Ok?
    ensures BoundedAt(env.input, 0, env.lim).val == Trap(keys, i, k)
  {
    hide Emit, Parse, Height, Width, Nest;
    var w := Trap(keys, i, k);
    TrapValid(keys, i, k);
    ValidWidth(w);
    ParseEmit(Emit(w), 0, w);
    env := Env(Mode(false, false, (id, data) => false), Emit(w), true, Limits(Height(w), MAX_LEN));
  }

  lemma TrapValid(keys: seq<bytes>, i: nat, k: nat)
    requires i < k < |keys| && forall j :: 0 <= j < |keys| ==> |keys[j]| < MAX_LEN
    ensures Valid(Trap(keys, i, k))
  {
    hide Nest;
    var a, b := Nest(keys[i + 1..k], WArr([])), Leftover(keys[i + 1]);
    NestValid(keys[i + 1..k], WArr([]));
    var es := [WStr(keys[i + 1]), WMap([]), WStr([]), WNil];
    var e1, e2 := [WMap([]), WStr([]), WNil], [WStr([]), WNil];
    assert es[1..] == e1 && e1[1..] == e2 && e2[1..] == [WNil] && [WNil][1..] == [];
    assert ValidAll([WNil]);
    assert ValidAll(e2);
    assert ValidAll(e1);
    assert ValidAll(es);
    var ws := [a, b, WMap([])];
    assert ws[1..] == [b, WMap([])] && [b, WMap([])][1..] == [WMap([])] && [WMap([])][1..] == [];
    assert ValidAll([b, WMap([])]);
    NestValid(keys[..i], WArr(ws));
  }

  lemma {:induction false} NestValid(keys: seq<bytes>, x: Wire)
    requires Valid(x) && forall j :: 0 <= j < |keys| ==> |keys[j]| < MAX_LEN
    ensures Valid(Nest(keys, x))
    decreases keys
  {
    if keys == [] {
    } else {
      NestValid(keys[1..], x);
      var es := [WStr(keys[0]), Nest(keys[1..], x)];
      assert es[1..] == [es[1]] && es[1..][1..] == [];
      assert ValidAll(es[1..]);
    }
  }

  // ---- small facts ----

  lemma RowZero(input: bytes, pos: nat, lim: Limits)
    requires RowAt(input, pos, 0, lim).Ok?
    ensures RowAt(input, pos, 0, lim) == Ok([], pos)
  {}

  lemma RowLength(input: bytes, pos: nat, n: nat, lim: Limits)
    requires RowAt(input, pos, n, lim).Ok?
    ensures |RowAt(input, pos, n, lim).val| == n
  {}

  lemma Looser(input: bytes, pos: nat, lim: Limits)
    requires BoundedAt(input, pos, Deeper(lim)).Ok?
    ensures BoundedAt(input, pos, lim) == BoundedAt(input, pos, Deeper(lim))
    ensures lim.room >= 2
  {
    hide Parse;
  }

  lemma RowLooser(input: bytes, pos: nat, n: nat, lim: Limits)
    requires RowAt(input, pos, n, Deeper(lim)).Ok?
    ensures RowAt(input, pos, n, lim) == RowAt(input, pos, n, Deeper(lim))
  {
    hide ParseSeq;
  }
}
