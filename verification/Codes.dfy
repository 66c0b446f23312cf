/** The MessagePack opcodes (section "Formats" of the MessagePack specification). */
module Codes {
  import opened Bytes

  const NIL: byte := 0xc0
  const FALSE: byte := 0xc2
  const TRUE: byte := 0xc3
  const BIN8: byte := 0xc4
  const BIN16: byte := 0xc5
  const BIN32: byte := 0xc6
  const EXT8: byte := 0xc7
  const EXT16: byte := 0xc8
  const EXT32: byte := 0xc9
  const FLOAT: byte := 0xca
  const DOUBLE: byte := 0xcb
  const UINT8: byte := 0xcc
  const UINT16: byte := 0xcd
  const UINT32: byte := 0xce
  const UINT64: byte := 0xcf
  const INT8: byte := 0xd0
  const INT16: byte := 0xd1
  const INT32: byte := 0xd2
  const INT64: byte := 0xd3
  const FIXEXT1: byte := 0xd4
  const FIXEXT2: byte := 0xd5
  const FIXEXT4: byte := 0xd6
  const FIXEXT8: byte := 0xd7
  const FIXEXT16: byte := 0xd8
  const STR8: byte := 0xd9
  const STR16: byte := 0xda
  const STR32: byte := 0xdb
  const ARRAY16: byte := 0xdc
  const ARRAY32: byte := 0xdd
  const MAP16: byte := 0xde
  const MAP32: byte := 0xdf

  predicate IsFixedNum(c: byte) { c <= 0x7f || c >= 0xe0 }
  predicate IsFixedMap(c: byte) { 0x80 <= c <= 0x8f }
  predicate IsFixedArray(c: byte) { 0x90 <= c <= 0x9f }
  predicate IsFixedString(c: byte) { 0xa0 <= c <= 0xbf }
  predicate IsFixedExt(c: byte) { FIXEXT1 <= c <= FIXEXT16 }
  predicate IsExt(c: byte) { IsFixedExt(c) || c == EXT8 || c == EXT16 || c == EXT32 }

  /** What a code announces. */
  datatype Kind =
    | Fixnum | NilCode | BoolCode | FloatCode | UintCode | IntCode
    | StrCode | BinCode | ArrCode | MapCode | ExtCode | UnusedCode

  function KindOf(c: byte): Kind {
    if IsFixedNum(c) then Fixnum
    else if IsFixedMap(c) || c >= MAP16 then MapCode
    else if IsFixedArray(c) || c >= ARRAY16 then ArrCode
    else if IsFixedString(c) || c >= STR8 then StrCode
    else if c == NIL then NilCode
    else if c == 0xc1 then UnusedCode
    else if c <= TRUE then BoolCode
    else if c <= BIN32 then BinCode
    else if c <= EXT32 then ExtCode
    else if c <= DOUBLE then FloatCode
    else if c <= UINT64 then UintCode
    else if c <= INT64 then IntCode
    else ExtCode
  }

  /** How many bytes after the code hold its number: a value, or a length. */
  function ArgWidth(c: byte): nat {
    if c == BIN8 || c == EXT8 || c == UINT8 || c == INT8 || c == STR8 then 1
    else if c == BIN16 || c == EXT16 || c == UINT16 || c == INT16 || c == STR16
            || c == ARRAY16 || c == MAP16 then 2
    else if c == BIN32 || c == EXT32 || c == UINT32 || c == INT32 || c == STR32
            || c == ARRAY32 || c == MAP32 || c == FLOAT then 4
    else if c == UINT64 || c == INT64 || c == DOUBLE then 8
    else 0
  }

  /** The number held in the code itself when no argument follows. */
  function FixArg(c: byte): nat {
    if IsFixedMap(c) then c - 0x80
    else if IsFixedArray(c) then c - 0x90
    else if IsFixedString(c) then c - 0xa0
    else if c == FIXEXT1 then 1
    else if c == FIXEXT2 then 2
    else if c == FIXEXT4 then 4
    else if c == FIXEXT8 then 8
    else if c == FIXEXT16 then 16
    else 0
  }

  predicate IsString(c: byte) { IsFixedString(c) || c == STR8 || c == STR16 || c == STR32 }
  predicate IsBin(c: byte) { c == BIN8 || c == BIN16 || c == BIN32 }
  predicate IsArray(c: byte) { IsFixedArray(c) || c == ARRAY16 || c == ARRAY32 }
  predicate IsMap(c: byte) { IsFixedMap(c) || c == MAP16 || c == MAP32 }

  /** The code ranges and the code lists of the decoder's switches name the same kinds. */
  lemma KindTable(c: byte)
    ensures KindOf(c) == Fixnum <==> IsFixedNum(c)
    ensures KindOf(c) == NilCode <==> c == NIL
    ensures KindOf(c) == BoolCode <==> c == FALSE || c == TRUE
    ensures KindOf(c) == FloatCode <==> c == FLOAT || c == DOUBLE
    ensures KindOf(c) == UintCode <==> c == UINT8 || c == UINT16 || c == UINT32 || c == UINT64
    ensures KindOf(c) == IntCode <==> c == INT8 || c == INT16 || c == INT32 || c == INT64
    ensures KindOf(c) == StrCode <==> IsString(c)
    ensures KindOf(c) == BinCode <==> IsBin(c)
    ensures KindOf(c) == ArrCode <==> IsArray(c)
    ensures KindOf(c) == MapCode <==> IsMap(c)
    ensures KindOf(c) == ExtCode <==> IsExt(c)
  {}
}
