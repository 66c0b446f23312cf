/**
 The wire format byte by byte, in the terms of section "Formats" of the MessagePack
 specification: every code by its number, every header by its bytes, and that the headers the
 emitter picks are the shortest that announce the same.
 */
module Format {
  import opened Bytes
  import opened Codes
  import opened Wire

  // ---- numbers in two, four and eight bytes, most significant first ----

  function Two(n: nat): bytes
    requires n < 0x1_0000
  {
    [n / 0x100, n % 0x100]
  }

  function Four(n: nat): bytes
    requires n < 0x1_0000_0000
  {
    [n / 0x100_0000, n / 0x1_0000 % 0x100, n / 0x100 % 0x100, n % 0x100]
  }

  function Eight(n: nat): bytes
    requires n < TWO64
  {
    [n / 0x100_0000_0000_0000, n / 0x1_0000_0000_0000 % 0x100, n / 0x100_0000_0000 % 0x100, n / 0x1_0000_0000 % 0x100,
     n / 0x100_0000 % 0x100, n / 0x1_0000 % 0x100, n / 0x100 % 0x100, n % 0x100]
  }

  lemma Spelled(n: nat)
    ensures n < 0x100 ==> Be(n, 1) == [n]
    ensures n < 0x1_0000 ==> Be(n, 2) == Two(n)
    ensures n < 0x1_0000_0000 ==> Be(n, 4) == Four(n)
    ensures n < TWO64 ==> Be(n, 8) == Eight(n)
  {
    hide Be;
    NoLanes(n);
    Lanes2(n, 0);
    Lanes4(n, 0);
    Lanes8(n);
    NoLanes(n / 0x1_0000);
    NoLanes(n / 0x1_0000_0000);
    TopLanes(n);
  }

  lemma TopLanes(n: nat)
    ensures n < 0x100 ==> n % 0x100 == n
    ensures n < 0x1_0000 ==> n / 0x100 % 0x100 == n / 0x100
    ensures n < 0x1_0000_0000 ==> n / 0x100_0000 % 0x100 == n / 0x100_0000
    ensures n < TWO64 ==> n / 0x100_0000_0000_0000 % 0x100 == n / 0x100_0000_0000_0000
  {}

  // ---- the codes ----

  /** What each of the 256 codes announces, and how many bytes of argument follow it. */
  lemma CodeTable(c: byte)
    ensures KindOf(c) == (
      if c <= 0x7f || c >= 0xe0 then Fixnum
      else if c <= 0x8f || c == 0xde || c == 0xdf then MapCode
      else if c <= 0x9f || c == 0xdc || c == 0xdd then ArrCode
      else if c <= 0xbf || c == 0xd9 || c == 0xda || c == 0xdb then StrCode
      else if c == 0xc0 then NilCode
      else if c == 0xc1 then UnusedCode
      else if c == 0xc2 || c == 0xc3 then BoolCode
      else if c <= 0xc6 then BinCode
      else if c <= 0xc9 || (0xd4 <= c <= 0xd8) then ExtCode
      else if c <= 0xcb then FloatCode
      else if c <= 0xcf then UintCode
      else IntCode)
    ensures ArgWidth(c) == (
      if c in {0xc4, 0xc7, 0xcc, 0xd0, 0xd9} then 1
      else if c in {0xc5, 0xc8, 0xcd, 0xd1, 0xda, 0xdc, 0xde} then 2
      else if c in {0xc6, 0xc9, 0xca, 0xce, 0xd2, 0xdb, 0xdd, 0xdf} then 4
      else if c in {0xcb, 0xcf, 0xd3} then 8
      else 0)
    ensures 0x80 <= c <= 0x9f ==> FixArg(c) == c % 16
    ensures 0xa0 <= c <= 0xbf ==> FixArg(c) == c % 32
    ensures FixArg(0xd4) == 1 && FixArg(0xd5) == 2 && FixArg(0xd6) == 4 && FixArg(0xd7) == 8 && FixArg(0xd8) == 16
    ensures NIL == 0xc0 && FALSE == 0xc2 && TRUE == 0xc3 && FLOAT == 0xca && DOUBLE == 0xcb
  {}

  // ---- the headers ----

  lemma StrHeadBytes(n: nat)
    requires n < MAX_LEN
    ensures StrHead(n) ==
      if n <= 31 then [0xa0 + n]
      else if n <= 255 then [0xd9, n]
      else if n <= 65535 then [0xda] + Two(n)
      else [0xdb] + Four(n)
  {
    hide Be, Two, Four;
    Spelled(n);
  }

  lemma BinHeadBytes(n: nat)
    requires n < MAX_LEN
    ensures BinHead(n) ==
      if n <= 255 then [0xc4, n]
      else if n <= 65535 then [0xc5] + Two(n)
      else [0xc6] + Four(n)
  {
    hide Be, Two, Four;
    Spelled(n);
  }

  lemma ArrHeadBytes(n: nat)
    requires n < MAX_LEN
    ensures ArrHead(n) ==
      if n <= 15 then [0x90 + n]
      else if n <= 65535 then [0xdc] + Two(n)
      else [0xdd] + Four(n)
  {
    hide Be, Two, Four;
    Spelled(n);
  }

  lemma MapHeadBytes(n: nat)
    requires n < MAX_LEN
    ensures MapHead(n) ==
      if n <= 15 then [0x80 + n]
      else if n <= 65535 then [0xde] + Two(n)
      else [0xdf] + Four(n)
  {
    hide Be, Two, Four;
    Spelled(n);
  }

  /** The header of an extension of n bytes that the encoder picks. */
  lemma ExtHeadBytes(n: nat)
    requires n < MAX_LEN
    ensures ExtHead(FixExtLen(n), n) ==
      if n == 1 then [0xd4] else if n == 2 then [0xd5] else if n == 4 then [0xd6]
      else if n == 8 then [0xd7] else if n == 16 then [0xd8]
      else if n <= 255 then [0xc7, n]
      else if n <= 65535 then [0xc8] + Two(n)
      else [0xc9] + Four(n)
  {
    hide Be, Two, Four;
    Spelled(n);
  }

  /** The headers picked are the shortest: no code of the same kind, with its argument, announces
      the same length in fewer bytes. */
  lemma ShortestHead(input: bytes, p: nat, c: byte)
    requires Arg(input, p, c).Ok?
    ensures var n := Arg(input, p, c).val;
      && (KindOf(c) == StrCode ==> |StrHead(n)| <= 1 + ArgWidth(c))
      && (KindOf(c) == BinCode ==> |BinHead(n)| <= 1 + ArgWidth(c))
      && (KindOf(c) == ArrCode ==> |ArrHead(n)| <= 1 + ArgWidth(c))
      && (KindOf(c) == MapCode ==> |MapHead(n)| <= 1 + ArgWidth(c))
      && (KindOf(c) == ExtCode ==> |ExtHead(FixExtLen(n), n)| <= 1 + ArgWidth(c))
  {
    hide Be, FromBe;
    PowValues();
    ArgBound(input, p, c);
    CodeTable(c);
  }

  // ---- numbers and other scalars ----

  lemma ScalarBytes(w: Wire)
    requires Valid(w)
    ensures w == WNil ==> Emit(w) == [0xc0]
    ensures w == WBool(false) ==> Emit(w) == [0xc2]
    ensures w == WBool(true) ==> Emit(w) == [0xc3]
    ensures w.WFix? ==> Emit(w) == [if w.n >= 0 then w.n else 0x100 + w.n]
    ensures w.WUint? && w.width == 1 ==> 0 <= w.n < 0x100 && Emit(w) == [0xcc, w.n]
    ensures w.WUint? && w.width == 2 ==> 0 <= w.n < 0x1_0000 && Emit(w) == [0xcd] + Two(w.n)
    ensures w.WUint? && w.width == 4 ==> 0 <= w.n < 0x1_0000_0000 && Emit(w) == [0xce] + Four(w.n)
    ensures w.WUint? && w.width == 8 ==> 0 <= w.n < TWO64 && Emit(w) == [0xcf] + Eight(w.n)
    ensures w.WFloat? && w.width == 4 ==> w.bits < 0x1_0000_0000 && Emit(w) == [0xca] + Four(w.bits)
    ensures w.WFloat? && w.width == 8 ==> w.bits < TWO64 && Emit(w) == [0xcb] + Eight(w.bits)
  {
    hide Be, StrHead, BinHead, ArrHead, MapHead, ExtHead, Two, Four, Eight;
    PowValues();
    if w.WUint? { Spelled(w.n); }
    if w.WFloat? { Spelled(w.bits); }
  }

  /** Negative numbers in two's complement. */
  lemma IntBytes(k: nat, n: int)
    requires Valid(WInt(k, n))
    ensures k == 1 ==> -0x80 <= n < 0x80 && Emit(WInt(k, n)) == [0xd0, if n >= 0 then n else 0x100 + n]
    ensures k == 2 ==> -0x8000 <= n < 0x8000 && Emit(WInt(k, n)) == [0xd1] + Two(if n >= 0 then n else 0x1_0000 + n)
    ensures k == 4 ==>
      -0x8000_0000 <= n < 0x8000_0000 && Emit(WInt(k, n)) == [0xd2] + Four(if n >= 0 then n else 0x1_0000_0000 + n)
    ensures k == 8 ==> -TWO63 <= n < TWO63 && Emit(WInt(k, n)) == [0xd3] + Eight(if n >= 0 then n else TWO64 + n)
  {
    hide Be, Two, Four, Eight;
    PowValues();
    Spelled(Unsigned(n, k));
  }

  /** Strings, byte strings and extensions: the header, for extensions the type byte, and the
      payload; containers: the header and the items in order. */
  lemma CompoundBytes(w: Wire)
    requires Valid(w)
    ensures w.WStr? ==> Emit(w) == StrHead(|w.s|) + w.s
    ensures w.WBin? ==> Emit(w) == BinHead(|w.s|) + w.s
    ensures w.WExt? ==> Emit(w) == ExtHead(w.fixed, |w.data|) + [if w.id >= 0 then w.id else 0x100 + w.id] + w.data
    ensures w.WArr? ==> Emit(w) == ArrHead(|w.items|) + EmitAll(w.items)
    ensures w.WMap? ==> Emit(w) == MapHead(|w.entries| / 2) + EmitAll(w.entries)
  {
    hide StrHead, BinHead, ArrHead, MapHead, ExtHead, Be;
  }

  // ---- headers the emitter would not pick are read all the same ----

  /** A header of code c with the length n behind it. */
  function Sized(c: byte, n: nat): (h: bytes)
    ensures |h| == 1 + ArgWidth(c)
  {
    [c] + Be(n, ArgWidth(c))
  }

  /** A payload of n bytes behind a header that announces n. */
  lemma Announced(input: bytes, pos: nat, c: byte, n: nat)
    requires ArgWidth(c) > 0 && n < Pow256(ArgWidth(c)) && At(input, pos, Sized(c, n))
    ensures input[pos] == c && Arg(input, pos + 1, c) == Ok(n, pos + 1 + ArgWidth(c))
  {
    hide Be, FromBe, KindOf, ArgWidth, Arg;
    ReadHead(input, pos, c, n, ArgWidth(c));
  }

  /** A payload under any header of its kind, short or long. */
  lemma AnyHead(input: bytes, pos: nat, c: byte, s: bytes)
    requires ArgWidth(c) > 0 && |s| < Pow256(ArgWidth(c)) && At(input, pos, Sized(c, |s|) + s)
    ensures KindOf(c) == StrCode ==> Parse(input, pos) == Ok(WStr(s), pos + 1 + ArgWidth(c) + |s|)
    ensures KindOf(c) == BinCode ==> Parse(input, pos) == Ok(WBin(s), pos + 1 + ArgWidth(c) + |s|)
  {
    hide Sized, Arg, KindOf, ArgWidth, Signed, ParseSeq, Pow256;
    AtConcat(input, pos, Sized(c, |s|), s);
    Announced(input, pos, c, |s|);
  }

  /** An extension under a sized header of any width. */
  lemma AnyExtHead(input: bytes, pos: nat, c: byte, id: byte, data: bytes)
    requires ArgWidth(c) > 0 && KindOf(c) == ExtCode && |data| < Pow256(ArgWidth(c))
    requires At(input, pos, Sized(c, |data|) + [id] + data)
    ensures Parse(input, pos)
         == Ok(WExt(false, if id < 0x80 then id else id - 0x100, data), pos + 2 + ArgWidth(c) + |data|)
  {
    hide Sized, Arg, KindOf, ArgWidth, Signed, ParseSeq, Pow256, IsFixedExt;
    var h := Sized(c, |data|);
    AtConcat(input, pos, h + [id], data);
    AtConcat(input, pos, h, [id]);
    Announced(input, pos, c, |data|);
    assert input[pos + |h|] == input[pos + |h|..pos + |h| + 1][0];
    IdByte(id);
    SizedNotFixed(c);
  }

  lemma IdByte(id: byte)
    ensures Signed(id, 1) == if id < 0x80 then id else id - 0x100
  {
    PowValues();
  }

  lemma SizedNotFixed(c: byte)
    ensures ArgWidth(c) > 0 ==> !IsFixedExt(c)
  {}
}
