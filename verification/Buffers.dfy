/** Go slices as values: nil, or a backing store of which a prefix is in use. */
module Buffers {

  datatype Option<+T> = None | Some(value: T)

  datatype Buffer<T> = NilBuffer | Buffer(mem: seq<T>, len: nat) {

    ghost predicate Valid() { Buffer? ==> len <= |mem| }

    function Len(): nat { if Buffer? then len else 0 }

    function Cap(): nat { if Buffer? then |mem| else 0 }

    function Contents(): (s: seq<T>)
      requires Valid()
      ensures |s| == Len()
    {
      if Buffer? then mem[..len] else []
    }

    /** What is left of the store when its first n cells are taken. */
    function SpareAfter(n: nat): seq<T> { if Buffer? && n <= |mem| then mem[n..] else [] }
  }

  function Repeat<T>(x: T, n: nat): (s: seq<T>)
    ensures |s| == n && forall i :: 0 <= i < n ==> s[i] == x
  {
    seq(n, _ => x)
  }

  /** The built-in append of n zero values. It writes in place while capacity lasts and
      moves to a store of the runtime's choosing otherwise. */
  method AppendZeros<T>(b: Buffer<T>, zero: T, n: nat) returns (r: Buffer<T>)
    requires b.Valid()
    ensures r.Buffer? && r.Valid() && r.Cap() >= b.Cap() && r.len == b.Len() + n
    ensures r.Contents() == b.Contents() + Repeat(zero, n)
    ensures b.Buffer? && b.Len() + n <= b.Cap() ==> r.mem == r.Contents() + b.mem[b.Len() + n..]
  {
    var len := b.Len() + n;
    var used := b.Contents() + Repeat(zero, n);
    if b.Buffer? && len <= |b.mem| {
      r := Buffer(used + b.mem[len..], len);
    } else {
      var spare: nat :| b.Cap() <= len + spare;
      r := Buffer(used + Repeat(zero, spare), len);
    }
  }
}
