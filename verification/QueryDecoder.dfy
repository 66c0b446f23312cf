/** The methods behind Decoder.Query, working in place on the decoder and a query record. */
module QueryDecoders {
  import opened Bytes
  import opened Buffers
  import opened Codes
  import opened Wire
  import opened Bounds
  import opened Value
  import opened Decoders
  import opened Queries

  class QueryResult {
    var query: bytes
    var key: bytes
    var values: seq<Value>
    var hasAsterisk: bool

    constructor (query: bytes)
      ensures this.query == query && key == [] && values == [] && !hasAsterisk
    {
      this.query, key, values, hasAsterisk := query, [], [], false;
    }

    /** Cuts the next key off the query. */
    method NextKey()
      modifies this`query, this`key
      ensures key == FirstKey(old(query)) && query == RestOf(old(query))
    {
      var ind := IndexOf(query, DOT);
      if ind == -1 {
        key, query := query, [];
        return;
      }
      key, query := query[..ind], query[ind + 1..];
    }
  }

  function EnvOf(d: Decoder): Env
    reads d`loose, d`intern, d`depth, d`maxDepth, d`noAllocLimit
  {
    Env(d.CurrentMode(), d.input, d.sized, d.Below())
  }

  /** A call that returned ok from the given states did what reply says. */
  ghost predicate Answers(ok: bool, before: seq<Value>, values: seq<Value>, pos: nat, star: bool, dict: Dict,
                          reply: Reply)
  {
    match reply
    case Failed => !ok
    case Reply(vs, e, s, d) => ok && values == before + vs && pos == e && star == s && dict == d
  }

  /** The whole query: its outcome is the machine's on the keys of the path. */
  method Query(d: Decoder, query: bytes) returns (r: Option<seq<Value>>)
    requires d.Valid()
    modifies d`pos, d`buf, d`rec, d`dict, d`depth
    ensures d.Valid() && d.depth == old(d.depth)
    ensures match Run(old(EnvOf(d)), old(d.pos), Keys(query), false, old(d.dict))
            case Failed => r.None?
            case Reply(vs, _, _, dict) => r == Some(vs) && d.dict == dict
    ensures !d.intern && StarCount(Keys(query)) <= 1 && BoundedAt(d.input, old(d.pos), old(d.Below())).Ok? ==>
      && r == Eval(d.CurrentMode(), BoundedAt(d.input, old(d.pos), old(d.Below())).val, Keys(query), old(d.dict))
      && (r.Some? ==> d.dict == old(d.dict))
  {
    hide Run, Keys, Eval, StarCount, BoundedAt;
    if !d.intern && StarCount(Keys(query)) <= 1 && BoundedAt(d.input, d.pos, d.Below()).Ok? {
      RunIsEval(EnvOf(d), d.pos, Keys(query), false, d.dict);
    }
    var q := new QueryResult(query);
    ghost var reply := Run(EnvOf(d), d.pos, Keys(query), false, d.dict);
    var ok := QueryNext(d, q);
    if !ok {
      return None;
    }
    assert [] + reply.vals == reply.vals;
    return Some(q.values);
  }

  method QueryNext(d: Decoder, q: QueryResult) returns (ok: bool)
    requires d.Valid()
    modifies d`pos, d`buf, d`rec, d`dict, d`depth, q
    ensures d.Valid() && d.depth == old(d.depth)
    ensures Answers(ok, old(q.values), q.values, d.pos, q.hasAsterisk, d.dict,
                    Run(old(EnvOf(d)), old(d.pos), Keys(old(q.query)), old(q.hasAsterisk), old(d.dict)))
    decreases |Keys(q.query)|, 1
  {
    hide Run, DecodeAt, KindOf, Keys, FirstKey, RestOf, IsMap, IsArray, IsExt, IsString, IsBin, IsFixedNum;
    KeysStep(q.query);
    RunLeaf(EnvOf(d), d.pos, Keys(q.query), q.hasAsterisk, d.dict);
    q.NextKey();
    if q.key == [] {
      var v := d.DecodeInterfaceCond();
      if v.None? {
        return false;
      }
      q.values := q.values + [v.value];
      return true;
    }
    var c := d.PeekCode();
    if c.None? {
      return false;
    }
    KindTable(c.value);
    if IsMap(c.value) {
      ok := QueryMapKey(d, q);
    } else if IsArray(c.value) {
      ok := QueryArrayIndex(d, q);
    } else {
      ok := false;
    }
  }

  method QueryMapKey(d: Decoder, q: QueryResult) returns (ok: bool)
    requires d.Valid() && q.key != []
    requires d.pos < |d.input| && KindOf(d.input[d.pos]) == MapCode
    modifies d`pos, d`buf, d`rec, d`dict, d`depth, q
    ensures d.Valid() && d.depth == old(d.depth)
    ensures Answers(ok, old(q.values), q.values, d.pos, q.hasAsterisk, d.dict,
                    Run(old(EnvOf(d)), old(d.pos), [old(q.key)] + Keys(old(q.query)), old(q.hasAsterisk), old(d.dict)))
    decreases |Keys(q.query)|, 3
  {
    hide Run, KindOf, Refused, Arg, Keys, RunEntries, Decoder.BehindExtHeader, Grow;
    RunAtMap(EnvOf(d), d.pos, [q.key] + Keys(q.query), q.hasAsterisk, d.dict);
    var n;
    ok, n := d.DecodeMapLen();
    if !ok {
      return;
    }
    ok := QueryEntries(d, q, n);
  }

  /** The loop over the entries of a map. */
  method QueryEntries(d: Decoder, q: QueryResult, n: nat) returns (ok: bool)
    requires d.Valid()
    modifies d`pos, d`buf, d`rec, d`dict, d`depth, q
    ensures d.Valid() && d.depth == old(d.depth)
    ensures Answers(ok, old(q.values), q.values, d.pos, q.hasAsterisk, d.dict,
                    RunEntries(old(EnvOf(d)), old(d.pos), n, [old(q.key)] + Keys(old(q.query)),
                               old(q.hasAsterisk), old(d.dict)))
    decreases |Keys(q.query)|, 2
  {
    hide Run, Keys, StringAt, BoundedAt, RowAt, Leave, StarCount, Grow;
    ghost var env, keys := EnvOf(d), [q.key] + Keys(q.query);
    assert keys[1..] == Keys(q.query);
    var i: nat := 0;
    ghost var all := RunEntries(env, d.pos, n, keys, q.hasAsterisk, d.dict);
    while i < n
      invariant i <= n && d.Valid() && d.depth == old(d.depth)
      invariant q.key == old(q.key) && q.query == old(q.query) && q.values == old(q.values)
      invariant q.hasAsterisk == old(q.hasAsterisk)
      invariant all == RunEntries(env, d.pos, n - i, keys, q.hasAsterisk, d.dict)
    {
      var key := d.DecodeStringTemp();
      if key.None? {
        return false;
      }
      if key.value == q.key {
        ghost var inner := Run(env, d.pos, keys[1..], q.hasAsterisk, d.dict);
        LeaveCases(env, inner, 2 * (n - i - 1));
        ok := QueryNext(d, q);
        if !ok {
          return;
        }
        if q.hasAsterisk {
          ok := d.SkipNext((n - i - 1) * 2);
        }
        return;
      }
      ok := d.Skip();
      if !ok {
        return;
      }
      i := i + 1;
    }
    return true;
  }

  method QueryArrayIndex(d: Decoder, q: QueryResult) returns (ok: bool)
    requires d.Valid() && q.key != []
    requires d.pos < |d.input| && KindOf(d.input[d.pos]) == ArrCode
    modifies d`pos, d`buf, d`rec, d`dict, d`depth, q
    ensures d.Valid() && d.depth == old(d.depth)
    ensures Answers(ok, old(q.values), q.values, d.pos, q.hasAsterisk, d.dict,
                    Run(old(EnvOf(d)), old(d.pos), [old(q.key)] + Keys(old(q.query)), old(q.hasAsterisk), old(d.dict)))
    decreases |Keys(q.query)|, 3
  {
    hide Run, KindOf, Refused, Arg, Keys, RunAll, RunIndex, Atoi;
    ghost var env, keys := EnvOf(d), [q.key] + Keys(q.query);
    RunAtArray(env, d.pos, keys, q.hasAsterisk, d.dict);
    var n;
    ok, n := d.DecodeArrayLen();
    if !ok {
      return;
    }
    if q.key == STAR {
      ok := QueryEach(d, q, n);
      return;
    }
    var ind := Atoi(q.key);
    if ind.None? {
      return false;
    }
    ok := QueryAt(d, q, n, ind.value);
  }

  /** The loop of an asterisk: the path is restored for every element. */
  method QueryEach(d: Decoder, q: QueryResult, n: nat) returns (ok: bool)
    requires d.Valid()
    modifies d`pos, d`buf, d`rec, d`dict, d`depth, q
    ensures d.Valid() && d.depth == old(d.depth)
    ensures Answers(ok, old(q.values), q.values, d.pos, q.hasAsterisk, d.dict,
                    RunAll(old(EnvOf(d)), old(d.pos), n, [old(q.key)] + Keys(old(q.query)), true, old(d.dict)))
    decreases |Keys(q.query)|, 2
  {
    hide Run, Keys;
    ghost var env, keys := EnvOf(d), [q.key] + Keys(q.query);
    assert keys[1..] == Keys(q.query);
    q.hasAsterisk := true;
    var query := q.query;
    ghost var all := RunAll(env, d.pos, n, keys, true, d.dict);
    ghost var got: seq<Value> := [];
    BeforeNothing(all);
    assert q.values == old(q.values) + got;
    var i: nat := 0;
    while i < n
      invariant i <= n && d.Valid() && d.depth == old(d.depth)
      invariant q.values == old(q.values) + got
      invariant all == Before(got, RunAll(env, d.pos, n - i, keys, q.hasAsterisk, d.dict))
    {
      q.query := query;
      ghost var one := Run(env, d.pos, keys[1..], q.hasAsterisk, d.dict);
      ok := QueryNext(d, q);
      if !ok {
        return;
      }
      BeforeTwice(got, one.vals, RunAll(env, d.pos, n - i - 1, keys, q.hasAsterisk, d.dict));
      assert q.values == old(q.values) + (got + one.vals);
      got := got + one.vals;
      i := i + 1;
    }
    q.hasAsterisk := false;
    return true;
  }

  /** The loop of an index. */
  method QueryAt(d: Decoder, q: QueryResult, n: nat, ind: int) returns (ok: bool)
    requires d.Valid()
    modifies d`pos, d`buf, d`rec, d`dict, d`depth, q
    ensures d.Valid() && d.depth == old(d.depth)
    ensures Answers(ok, old(q.values), q.values, d.pos, q.hasAsterisk, d.dict,
                    RunIndex(old(EnvOf(d)), old(d.pos), n, ind, [old(q.key)] + Keys(old(q.query)),
                             old(q.hasAsterisk), old(d.dict)))
    decreases |Keys(q.query)|, 2
  {
    hide Run, Keys, BoundedAt, RowAt, Leave;
    ghost var env, keys := EnvOf(d), [q.key] + Keys(q.query);
    assert keys[1..] == Keys(q.query);
    ghost var all := RunIndex(env, d.pos, n, ind, keys, q.hasAsterisk, d.dict);
    var i: nat := 0;
    while i < n
      invariant i <= n && d.Valid() && d.depth == old(d.depth) && d.dict == old(d.dict)
      invariant q.query == old(q.query) && q.values == old(q.values) && q.hasAsterisk == old(q.hasAsterisk)
      invariant all == RunIndex(env, d.pos, n - i, ind - i, keys, q.hasAsterisk, d.dict)
    {
      if i == ind {
        ghost var inner := Run(env, d.pos, keys[1..], q.hasAsterisk, d.dict);
        LeaveCases(env, inner, n - i - 1);
        ok := QueryNext(d, q);
        if !ok {
          return;
        }
        if q.hasAsterisk {
          ok := d.SkipNext(n - i - 1);
        }
        return;
      }
      ok := d.Skip();
      if !ok {
        return;
      }
      i := i + 1;
    }
    return true;
  }

  // ---- unfolding the machine ----

  lemma KeysStep(query: bytes)
    ensures Keys(query) == if FirstKey(query) == [] then [] else [FirstKey(query)] + Keys(RestOf(query))
  {
    hide FirstKey, RestOf;
  }

  lemma RunLeaf(env: Env, pos: nat, keys: seq<bytes>, star: bool, dict: Dict)
    ensures keys == [] ==>
      Run(env, pos, keys, star, dict)
      == (match DecodeAt(env.mode, env.input, pos, env.lim, dict)
          case Fail => Failed
          case Done(v, e, d) => Reply([v], e, star, d))
    ensures keys != [] && pos >= |env.input| ==> Run(env, pos, keys, star, dict) == Failed
    ensures keys != [] && pos < |env.input|
            && KindOf(env.input[pos]) != MapCode && KindOf(env.input[pos]) != ArrCode ==>
      Run(env, pos, keys, star, dict) == Failed
  {
    hide DecodeAt, KindOf;
  }

  lemma RunAtMap(env: Env, pos: nat, keys: seq<bytes>, star: bool, dict: Dict)
    requires keys != [] && pos < |env.input| && KindOf(env.input[pos]) == MapCode
    ensures Run(env, pos, keys, star, dict)
         == if Refused(env.input, pos + 1, env.input[pos], env.sized, env.lim.cap, 2) then Failed
            else RunEntries(env, Arg(env.input, pos + 1, env.input[pos]).end,
                            Arg(env.input, pos + 1, env.input[pos]).val, keys, star, dict)
  {
    hide KindOf, RunEntries, Arg;
  }

  lemma RunAtArray(env: Env, pos: nat, keys: seq<bytes>, star: bool, dict: Dict)
    requires keys != [] && pos < |env.input| && KindOf(env.input[pos]) == ArrCode
    ensures Run(env, pos, keys, star, dict)
         == if Refused(env.input, pos + 1, env.input[pos], env.sized, env.lim.cap, 1) then Failed
            else
              var n, p := Arg(env.input, pos + 1, env.input[pos]).val, Arg(env.input, pos + 1, env.input[pos]).end;
              if keys[0] == STAR then RunAll(env, p, n, keys, true, dict)
              else if Atoi(keys[0]).None? then Failed
              else RunIndex(env, p, n, Atoi(keys[0]).value, keys, star, dict)
  {
    hide KindOf, RunAll, RunIndex, Atoi, Arg;
  }

  lemma LeaveCases(env: Env, r: Reply, n: nat)
    ensures r.Failed? || !r.star ==> Leave(env, r, n) == r
    ensures r.Reply? && r.star ==>
      Leave(env, r, n)
      == if RowAt(env.input, r.end, n, env.lim).Err? then Failed
         else r.(end := RowAt(env.input, r.end, n, env.lim).end)
  {
    hide RowAt;
  }

  lemma BeforeNothing(r: Reply)
    ensures Before([], r) == r
  {
    if r.Reply? { assert [] + r.vals == r.vals; }
  }

  lemma BeforeTwice(a: seq<Value>, b: seq<Value>, r: Reply)
    ensures Before(a, Before(b, r)) == Before(a + b, r)
  {
    if r.Reply? { assert a + (b + r.vals) == a + b + r.vals; }
  }
}
