# A verified model of the msgpack codec

The package under `pkg/msgpack` is a MessagePack codec written by hand: an `Encoder` that writes
tagged bytes and a `Decoder` that reads them back from a stream. Its difficulty lies in what has to
agree without anything enforcing it. Three separate walks (the interface decoder, `Skip` and
`Query`) must understand the same bytes alike, under guards that look at how much input is left and
a depth counter that every exit has to restore. Two intern dictionaries that are never exchanged must
stay inverse to each other. Growing readers must equal plain ones.

This project models that behaviour in Dafny and proves it against one reference: an unguarded,
unlimited grammar of wire trees (`Wire.Parse` and `Wire.Emit`). The `Decoder`, the `Encoder` and the
query record are classes with the source's fields, updated in place by methods with the source's
branches and loops; each method is proved equal to a function of the bytes and of the old state, and
the theorems are about those functions.

| file | what it holds |
|---|---|
| `Bytes`, `Codes`, `Buffers` | big-endian numbers, two's complement, opcodes, slices with a capacity |
| `Wire` | the wire tree (maps are ordered lists of entries), its grammar and its writer |
| `Format` | every code by its number, every header by its bytes, and that the headers picked are the shortest |
| `Bounds` | the grammar under a nesting limit and a length limit; what the guards refuse |
| `Value` | what a wire tree means in each decoding mode, with the dictionary threaded through |
| `Decoder` | the `Decoder` object: readers, guards, lengths, `Skip`, `DecodeRaw`, strings, numbers, values |
| `Encoder` | the `Encoder` object: staged header writes, numbers, strings, trees, sorted maps |
| `Forms` | the wire trees an encoder may write for a value under each setting; canonical forms |
| `Reading` | when an interned tree is read back: where the two dictionaries part and which references reach beyond |
| `Meanings` | what decoded values are, apart from the walk that makes them: types, duplicate entries, widening |
| `Codec` | round trip under every setting, truncation, extension, guards, loose decoding |
| `Messages` | the two objects together |
| `Intern` | the two dictionaries over whole runs, with each side's mode of its own |
| `Query`, `QueryDecoder` | path meaning on trees, the query machine on bytes, the methods |
| `Structs`, `Slices` | struct bodies with unknown fields; decoding into an existing slice of scalars |
| `Time`, `Numbers` | timestamp payloads; smallest integer forms and the number decoders |
| `Floats`, `Rounding`, `CompactFloats` | IEEE 754 patterns of both widths, the reals they denote, integer/float crossing |

## Statements that do not hold as first expected

Each of these is proved with its exact condition, for all inputs that meet the hypotheses named.

- With interning off and from any dictionary, `Query` is right on every well-formed stream if and only
  if the path holds at most one `*` (`Queries.FaithfulPaths`). The loop of an inner `*` clears the flag
  of the outer one, and for every path with two asterisks there is a stream (`Queries.Trap`) on which
  the path has an answer and the query fails.
- The encoder learns string values and map keys, the interface decoder map keys only. So a value, read
  in the interning mode it was written in and from the same dictionary, comes back up to the types of
  its numbers if and only if three things hold (`Codec.RoundTrip`). It is within the decoder's nesting
  and length limits. No key or value in its form refers to an index at or beyond the point where the
  encoder learned its first string value (`Reading.Safe`). And no float of it reverts
  (`Reading.Reverts`, below). Where number types are kept and the reading is strict, the value itself
  comes back if and only if the first two hold.
- The length limit never matters on a reader that tells its length. On a stream of unknown length it is
  a million unless limits are off, and a longer array is encoded and then refused
  (`Codec.CeilingShows`).
- After a decoded tree both dictionaries agree, and every string sent next arrives, if and only if the
  tree taught the encoder no string value (`Codec.DictionariesAgree`, `Codec.LaterStrings`); after a
  skipped tree if and only if it taught the encoder nothing at all (`Codec.SkippedTree`). Otherwise a
  later key may be read as another key with no error (`Codec.WrongKey`).
- `Skip` counts a level for the value itself and an entry-point decode does not. From the same state
  `Skip` therefore follows a decode exactly when the value also fits one level down
  (`Codec.SkipAgainstDecode`, with the witness `Codec.SkipStricterAtTheLimit`).
- For strings read by `DecodeString`, the two dictionaries stay inverse if and only if the two modes
  agree at every string that would be learned (`Intern.InverseThroughout`), and that is also exactly
  when everything sent later in matching modes arrives (`Intern.InternExact`). Otherwise a string is
  lost (`Intern.EncoderAhead`) or silently read as another one (`Intern.SilentCorruption`). An array of
  strings read by the interface decoder comes back if and only if no string learned on the way is sent
  again (`Intern.InterfaceRun`).
- With sorted keys equal bytes mean equal values only where number types are kept; in general they mean
  values that differ in nothing but what compaction forgets (`Forms.SortedCanonical`).
- `EncodeUint` is shortest exactly below 2^64 - 2^31 (`Numbers.SmallestUintShortest`), because the
  unsigned decoder also accepts negative forms and wraps them.
- The timestamp layout is shortest except in second 2^34 with few nanoseconds (`Time.PackShortest`),
  because the reader carries surplus nanoseconds of an eight-byte payload into the seconds.
- 2^63 and 2^64 pass the float range checks (`Floats.ToInt64Exact`, `Floats.ToUint64Exact`).
- Compact floats of either width lose the sign of zero and nothing else when read as floats
  (`CompactFloats.CompactRoundTrip`). Read as interface values they are numerically equal unless they
  revert: the value is 2^63 and the hardware's conversion of it rounds back to 2^63, as a saturating
  one does. Then another integer is on the wire (`Reading.CompactRead`).

## Model

| member | source | states |
|---|---|---|
| `Codec.RoundTrip` | pkg/msgpack/encode.go:261-289 | Under any settings of the encoder, read in any mode that interns alike and from the same dictionary, whatever precedes and follows the bytes: a numerically equal tree is decoded if and only if the value is within the limits, every reference in its form is safe and no float of it reverts; with types kept and strict reading the value itself if and only if it is within the limits and every reference is safe; the decoder stops exactly behind the bytes; the same at the entry point |
| `Codec.ReadBack` | pkg/msgpack/decode.go:553-619 | On trees: in the same interning mode and from the same dictionary, a form is read back up to number types if and only if every reference is safe and no float reverts, and exactly, with types kept and strict reading, if and only if every reference is safe |
| `Reading.Reads` | pkg/msgpack/decode.go:553-619 | The same from any two dictionaries that parted at a known point, with the misread key of least index missing from the map |
| `Reading.KeysRead` | pkg/msgpack/decode_map.go:187-197 | What the keys of a decoded map are when some of its references reach beyond the point where the dictionaries parted: the key sent at the least such index is missing |
| `Reading.Tracks` | pkg/msgpack/intern.go:59-74 | Through any tree that is decoded the decoder's list is the encoder's until a string value is learned, and behind it from there on: no entry stands at or after the index the encoder has it at |
| `Reading.SteadyIsSafe` | pkg/msgpack/intern.go:59-74 | A tree that teaches the encoder no string value has safe references only |
| `Codec.CeilingShows` | pkg/msgpack/decode.go:294-316 | An array of n nils, once encoded, is decoded exactly when n is within the length limit: the family on which the million-element ceiling refuses what was encoded |
| `Codec.FitsIsWithin` | pkg/msgpack/decode.go:731-742 | Every form of a value passes the limits exactly when the value does, so the condition can be read off the value |
| `Codec.DictionariesAgree` | pkg/msgpack/decode_map.go:187-197 | In the same interning mode and from the same dictionary, a tree is decoded and both dictionaries agree afterwards if and only if it taught the encoder no string value |
| `Codec.LaterStrings` | pkg/msgpack/intern.go:131-190 | After a decoded tree every string sent next arrives if and only if the tree taught the encoder no string value |
| `Codec.SkippedTree` | pkg/msgpack/decode.go:680-729 | After a skipped tree every string sent next arrives if and only if the tree taught the encoder nothing, neither key nor value |
| `Reading.SafeWithoutInterning` | pkg/msgpack/encode_slice.go:66-71 | With interning off, from any dictionary, every reference of every tree is safe and the dictionary stays as it is |
| `Reading.ShortIsSteady` | pkg/msgpack/intern.go:59-74 | Trees whose string values are shorter than three bytes teach the encoder no string value, whatever their keys |
| `Codec.WrongKey` | pkg/msgpack/decode_map.go:187-197 | With interning on both sides, for all distinct learnable s, t, u that are not yet known: after the string value s the keys t, u, t are read as t, u, u with no error |
| `Reading.CompactRead` | pkg/msgpack/encode_number.go:159-179 | As an interface value a compact float of either width is read as the same number, unless it is 2^63 and the conversion of it rounds back, and then never |
| `Codec.TruncatedRejected` | pkg/msgpack/decode.go:553-729 | No proper prefix of an encoded value is decoded, nested or at either entry point, or skipped, under any limits and dictionary |
| `Codec.ExtensionKept` | pkg/msgpack/decode.go:278-333 | A decode, nested or at either entry point, or skip that succeeds gives the same result and end when bytes are appended, although the guards read the remaining length |
| `Codec.GuardsOnlyHasten` | pkg/msgpack/decode.go:294-333 | On a reader that tells its length (or with the ceiling lifted), skipping and decoding, nested or at either entry point, equal the unguarded grammar plus the nesting limit; a value of height h is skipped exactly when h levels are left |
| `Codec.SkipAgainstDecode` | pkg/msgpack/decode.go:680-729 | Whenever a nested decode succeeds `Skip` succeeds with the same end, nil, bin and interned keys included; against an entry-point decode it does so exactly when the value fits one level down |
| `Codec.SkipStricterAtTheLimit` | pkg/msgpack/decode.go:731-742 | Witness: with no level left the entry point still reads a scalar that `Skip` refuses |
| `Codec.LooseDecode` | pkg/msgpack/decode.go:626-677 | Loose decoding is strict decoding followed by recursive widening: same inputs accepted, same end, same dictionary |
| `Forms.SortedCanonical` | pkg/msgpack/encode_map.go:115-141 | With sorted keys, from the same dictionary and under any other settings, two trees have equal bytes if and only if they differ in nothing but what compaction forgets; with number types kept if and only if they are equal |
| `Forms.LeIsLexicographic` | pkg/msgpack/encode_map.go:129 | The order of keys is that of bytes: a proper prefix comes first, otherwise the smaller byte where two keys first differ |
| `Forms.SortedUnique` | pkg/msgpack/encode_map.go:86-95 | With sorted keys, trees that differ in nothing but what compaction forgets have one wire form, whatever order their maps were iterated in, from the same dictionary |
| `Forms.FormDetermines` | pkg/msgpack/encode.go:261-289 | A wire form stands for one value only, up to what compaction forgets |
| `Forms.SortedIsAny` | pkg/msgpack/encode_map.go:97-113 | The sorted form is one of the forms an unsorted encoder may write, at every level |
| `Forms.EncodesValid` | pkg/msgpack/encode_slice.go:43-98 | Every form an encoder may choose for an encodable tree, under any setting and dictionary, lies within the format's widths and lengths |
| `Wire.ParseEmit` | pkg/msgpack/decode.go:553-619 | Any valid wire tree is parsed back from its bytes anywhere in an input, ending where they end |
| `Wire.ParseValid` | pkg/msgpack/decode.go:553-619 | Whatever is parsed from arbitrary bytes lies within the format's widths and lengths |
| `Wire.ParseExtends` | pkg/msgpack/decode.go:553-619 | A parse that succeeds is unchanged when bytes are appended |
| `Wire.PrefixRejected` | pkg/msgpack/decode.go:553-619 | No proper prefix of a valid tree's bytes parses |
| `Wire.EmitInjective` | pkg/msgpack/encode.go:261-289 | Bytes followed by anything determine the tree and what follows: the format is prefix-free |
| `Wire.ValidWidth` | pkg/msgpack/decode.go:294-316 | No valid tree holds a container longer than the lifted ceiling |
| `Format.ShortestHead` | pkg/msgpack/encode_slice.go:43-98 | No code of the same kind announces the same length, in any input, in fewer bytes than the header picked, for strings, byte strings, arrays, maps and extensions |
| `Format.StrHeadBytes` | pkg/msgpack/encode_slice.go:53-64 | The string header of every length, byte by byte |
| `Format.BinHeadBytes` | pkg/msgpack/encode_slice.go:43-51 | The bin header of every length, byte by byte |
| `Format.ArrHeadBytes` | pkg/msgpack/encode_slice.go:90-98 | The array header of every length, byte by byte |
| `Format.MapHeadBytes` | pkg/msgpack/encode_map.go:183-191 | The map header of every length, byte by byte |
| `Format.ExtHeadBytes` | pkg/msgpack/ext.go:182-202 | The ext header of every length, byte by byte |
| `Format.ScalarBytes` | pkg/msgpack/encode_number.go:181-218 | Nil, bools, one-byte numbers, unsigned numbers and floats, byte by byte |
| `Format.IntBytes` | pkg/msgpack/encode_number.go:73-111 | Signed numbers of every width, in two's complement, byte by byte |
| `Format.AnyHead` | pkg/msgpack/decode_string.go:10-58 | A payload is read under any string or bin header of its kind, not only the shortest |
| `Format.AnyExtHead` | pkg/msgpack/ext.go:226-272 | The same for extensions under sized headers |
| `Meanings.LastEntryWins` | pkg/msgpack/decode_map.go:187-197 | One more entry at the end of a map is one more store, replacing an earlier entry of the same key and no other |
| `Meanings.ExtensionTypes` | pkg/msgpack/ext.go:274-296 | Type -128 is a reference by its payload of 1, 2 or 4 bytes, type -1 a timestamp, any other what a registered decoder accepts |
| `Meanings.LooseIsWide` | pkg/msgpack/decode.go:626-677 | Loose reading yields 64-bit numbers and no byte strings, at every level |
| `Meanings.WideningKeeps` | pkg/msgpack/decode.go:626-677 | Widening keeps every number's value and whether it is signed, and every string's bytes |
| `Meanings.DecodedIsEncodable` | pkg/msgpack/decode.go:553-619 | Whatever is decoded from well-formed bytes, in any mode, is a value the encoder takes, with extensions a registered decoder accepts |
| `Bounds.BoundedArr` | pkg/msgpack/decode_slice.go:21-56 | A bounded array is its header, the length limit and a row one level down; whatever the array guard refuses has no parse |
| `Bounds.BoundedMap` | pkg/msgpack/decode_map.go:79-115 | The same for maps, at two bytes a pair |
| `Value.LooseIsWidened` | pkg/msgpack/decode.go:626-677 | On trees: loose interpretation is strict interpretation, widened at every level |
| `Value.DictStays` | pkg/msgpack/decode_string.go:60-70 | With interning off the dictionary stays as it is through any value |
| `Decoders.Decoder.ReadNGrow` | pkg/msgpack/decode.go:859-898 | For any old buffer: exactly the next n bytes, exactly n consumed, success exactly when they are there; the buffer never outgrows the bytes received by more than the starting capacity plus 1 MiB |
| `Decoders.Decoder.FillInChunks` | pkg/msgpack/decode.go:879-898 | The growth loop: each chunk is filled before the next is allocated, and the excess bound holds at every iteration |
| `Decoders.Decoder.ReadNPlain` | pkg/msgpack/decode.go:841-857 | The plain reader meets the same specification as the growing one |
| `Decoders.Decoder.ReadN` | pkg/msgpack/decode.go:822-839 | Either reader: the next n bytes or failure, recorded exactly when recording is on |
| `Decoders.Decoder.ReadCode` | pkg/msgpack/decode.go:794-806 | One byte, or failure exactly at the end of input, recorded when recording is on |
| `Decoders.Decoder.RejectOversizedContainer` | pkg/msgpack/decode.go:294-316 | Accepts exactly the lengths that the remaining input, or else the ceiling, allows |
| `Decoders.Decoder.RejectOversizedBytes` | pkg/msgpack/decode.go:321-333 | Accepts exactly the byte counts that the remaining input allows |
| `Decoders.Decoder.ArrayLen` | pkg/msgpack/decode_slice.go:21-56 | Reads an array header exactly when it is complete and not refused; nil is -1 |
| `Decoders.Decoder.DecodeArrayLen` | pkg/msgpack/decode_slice.go:13-19 | The length at the reader: an array's, -1 for nil, failure for every other code and at the end |
| `Decoders.Decoder.MapLen` | pkg/msgpack/decode_map.go:79-115 | Reads a map header exactly when it is complete and not refused; nil is -1 |
| `Decoders.Decoder.DecodeMapLen` | pkg/msgpack/decode_map.go:60-77 | The same at the reader, behind an ext header if there is one |
| `Decoders.Decoder.BytesLen` | pkg/msgpack/decode_string.go:10-58 | Reads a string or bin header exactly when it is complete and not refused; nil is -1; any other code fails |
| `Decoders.Decoder.ParseExtLen` | pkg/msgpack/ext.go:226-272 | Reads an ext length exactly when it is fixed, or complete and not refused |
| `Decoders.Decoder.SkipExtHeader` | pkg/msgpack/ext.go:313-339 | Passes over the type byte and the length bytes, exactly when they are all there |
| `Decoders.Decoder.EnterDepth` | pkg/msgpack/decode.go:731-742 | Takes a level exactly when one is left and leaves the counter alone otherwise |
| `Decoders.Decoder.LeaveDepth` | pkg/msgpack/decode.go:744-748 | Gives the level back, never below zero |
| `Decoders.Decoder.Skip` | pkg/msgpack/decode.go:680-729 | Succeeds exactly on a well-formed value within the limits, stops right behind it, records exactly the bytes passed, restores the depth on every exit |
| `Decoders.Decoder.SkipSlice` | pkg/msgpack/decode_slice.go:221-234 | The array case, element by element |
| `Decoders.Decoder.SkipMap` | pkg/msgpack/decode_map.go:325-339 | The map case, key and value alike |
| `Decoders.Decoder.SkipExt` | pkg/msgpack/ext.go:298-311 | The ext case: payload and type byte |
| `Decoders.Decoder.SkipBytes` | pkg/msgpack/decode_string.go:185-194 | The string and bin case |
| `Decoders.Decoder.SkipNext` | pkg/msgpack/decode_query.go:150-157 | n values in a row are skipped exactly when they are a bounded row, ending where it ends |
| `Decoders.Decoder.DecodeRaw` | pkg/msgpack/decode.go:750-765 | Returns exactly the bytes `Skip` passes over, on exactly the inputs it accepts; recording is off on every exit |
| `Decoders.Decoder.String` | pkg/msgpack/decode_string.go:72-86 | A string without a dictionary: the payload the grammar announces, nil as empty |
| `Decoders.Decoder.Bytes` | pkg/msgpack/decode_string.go:113-125 | The payload of any string or bin header into the given storage, a nil slice for nil and only for nil, failure for any other code |
| `Decoders.Decoder.DecodeString` | pkg/msgpack/decode_string.go:60-70 | The string, the end and the new dictionary are those of the grammar's string reading |
| `Decoders.Decoder.DecodeStringTemp` | pkg/msgpack/decode_string.go:127-151 | The same through the temporary reader |
| `Decoders.Decoder.DecodeInternedString` | pkg/msgpack/intern.go:131-190 | Plain strings are remembered, references resolved, everything else refused, as the grammar's string reading says |
| `Decoders.Decoder.DecodeInternedStringWithLen` | pkg/msgpack/intern.go:226-241 | Appends to the dictionary exactly when the mode, the minimum length and the cap allow |
| `Decoders.Decoder.InternedStringAt` | pkg/msgpack/intern.go:192-224 | An index of 1, 2 or 4 bytes, inside the dictionary or refused |
| `Decoders.Decoder.Int` | pkg/msgpack/decode_number.go:147-190 | Any number where an int64 is wanted: value and end by the grammar, floats only if exact |
| `Decoders.Decoder.Uint` | pkg/msgpack/decode_number.go:91-135 | The same for uint64, negative forms wrapped |
| `Decoders.Decoder.Float64` | pkg/msgpack/decode_number.go:225-246 | The same for float64: floats by their bits, integers rounded to nearest |
| `Decoders.Decoder.DecodeFloat64` | pkg/msgpack/decode_number.go:217-223 | The same at the reader |
| `Decoders.Decoder.Float32` | pkg/msgpack/decode_number.go:200-214 | Any number where a float32 is wanted: a float by its bits, everything else through the integer decoder and rounded to nearest |
| `Decoders.Decoder.DecodeFloat32` | pkg/msgpack/decode_number.go:192-198 | The same at the reader |
| `Decoders.Decoder.DecodeInt64` | pkg/msgpack/decode_number.go:139-145 | `Int` at the reader |
| `Decoders.Decoder.DecodeUint64` | pkg/msgpack/decode_number.go:83-89 | `Uint` at the reader |
| `Decoders.Decoder.DecodeBool` | pkg/msgpack/decode.go:510-529 | A bool, nil as false, failure for any other code |
| `Decoders.Decoder.Uint64` | pkg/msgpack/decode_number.go:60-74 | Eight bytes joined are the big-endian number they spell |
| `Decoders.Decoder.DecodeInterfaceExt` | pkg/msgpack/ext.go:274-296 | Interned reference, timestamp, registered ext or refusal, by id and payload |
| `Decoders.Decoder.DecodeSlice` | pkg/msgpack/decode_slice.go:189-219 | An array whose code has been read decodes to what the grammar says; nil is a nil slice; any other code fails |
| `Decoders.Decoder.DecodeMap` | pkg/msgpack/decode_map.go:171-200 | A string-keyed map, behind an ext header if there is one; the last of equal keys wins; nil is a nil map; any other code fails |
| `Decoders.Decoder.DecodeInterfaceCond` | pkg/msgpack/decode.go:465-475 | A nested value in the current mode: value, end and dictionary are those of the bounded grammar's interpretation; depth restored |
| `Decoders.Decoder.DecodeInterface` | pkg/msgpack/decode.go:553-619 | The entry point: the guarded, depth-limited, stateful decoder refines the unguarded grammar |
| `Decoders.Decoder.DecodeInterfaceLoose` | pkg/msgpack/decode.go:626-677 | The loose entry point: the same, scalars widened |
| `Encoders.Encoder.Write8` | pkg/msgpack/encode_number.go:206-218 | A code and eight bytes through the staging buffer are the code and the big-endian number |
| `Encoders.Encoder.Write4` | pkg/msgpack/encode_number.go:196-204 | The same for four bytes |
| `Encoders.Encoder.EncodeUint` | pkg/msgpack/encode_number.go:122-136 | Writes the smallest unsigned form |
| `Encoders.Encoder.EncodeInt` | pkg/msgpack/encode_number.go:140-157 | Writes the smallest signed form |
| `Encoders.Encoder.EncodeFloat64` | pkg/msgpack/encode_number.go:168-179 | Writes the double, or its compact form when compaction is on |
| `Encoders.Encoder.EncodeFloat32` | pkg/msgpack/encode_number.go:159-166 | The same for a float32 |
| `Encoders.Encoder.EncodeSized` | pkg/msgpack/encode_number.go:25-118 | Writes the typed form of a number, or the smallest one when compaction is on, for every number type |
| `Encoders.Encoder.EncodeStringLen` | pkg/msgpack/encode_slice.go:53-64 | The shortest string header that the grammar reads back as that length |
| `Encoders.Encoder.EncodeBytesLen` | pkg/msgpack/encode_slice.go:43-51 | The shortest bin header for that length |
| `Encoders.Encoder.EncodeArrayLen` | pkg/msgpack/encode_slice.go:90-98 | The shortest array header for that length |
| `Encoders.Encoder.EncodeMapLen` | pkg/msgpack/encode_map.go:183-191 | The shortest map header for that length |
| `Encoders.Encoder.EncodeExtLen` | pkg/msgpack/ext.go:182-202 | The shortest ext header for that length |
| `Encoders.Encoder.EncodeString` | pkg/msgpack/encode_slice.go:66-71 | Writes the string or a reference to it and moves the dictionary one step; fails exactly on an index beyond four bytes, with nothing written |
| `Encoders.Encoder.EncodeInternedString` | pkg/msgpack/intern.go:59-74 | The interned path of the same |
| `Encoders.Encoder.EncodeInternedStringIndex` | pkg/msgpack/intern.go:76-99 | A reference in the shortest of three ext forms; an index beyond four bytes is an error |
| `Encoders.Encoder.EncodeByteArray` | pkg/msgpack/encode_slice.go:19-41 | An addressable array is written as it stands, any other through a staging buffer grown to fit, which still holds nine bytes or more afterwards; the bytes are the same |
| `Encoders.Encoder.Recycle` | pkg/msgpack/encode.go:72-89 | A recycled encoder keeps a staging buffer of at least nine bytes, and no storage above the pool's limit |
| `Encoders.Encoder.EncodeSlice` | pkg/msgpack/encode_slice.go:138-149 | Under any settings an array's output is a wire form of the array, and the dictionary is the one that form leaves |
| `Encoders.Encoder.EncodeMap` | pkg/msgpack/encode_map.go:97-113 | The same for a map, for every iteration order |
| `Encoders.Encoder.EncodeMapSorted` | pkg/msgpack/encode_map.go:115-141 | The same with ascending keys |
| `Encoders.SortedKeys` | pkg/msgpack/encode_map.go:123-129 | The keys of the map, each once, every key before the next in byte-wise lexicographic order |
| `Encoders.Encoder.Encode` | pkg/msgpack/encode.go:261-289 | Under any settings and from any one-to-one dictionary the output grows by a valid wire form of the value, and the dictionary becomes the one that form leaves |
| `Encoders.Encoder.Append` | pkg/msgpack/encode.go:121-136 | Returns exactly a wire form of the value, in the storage passed in, and leaves the writer untouched |
| `Messages.ThereAndBack` | pkg/msgpack/decode.go:553-619 | What an `Encoder` appends, a `Decoder` with its dictionary and interning mode reads back: a numerically equal value exactly when it is within the limits, its references are safe and no float reverts, the value itself with types kept exactly when the first two hold; the decoder then stands behind the bytes |
| `Intern.InternStep` | pkg/msgpack/intern.go:59-99 | One string through both machines, each in its own mode: it arrives, and the dictionaries stay inverse if and only if the modes agree or the string would not be learned |
| `Intern.ReferenceShortest` | pkg/msgpack/intern.go:76-99 | No reference to the same index has a shorter payload |
| `Intern.ReferenceBytes` | pkg/msgpack/intern.go:76-99 | A reference to every index, byte by byte |
| `Intern.AnyReference` | pkg/msgpack/intern.go:192-224 | A reference of any admitted width is to the string at that index of the list; any other payload length or a sized header is refused |
| `Intern.Thresholds` | pkg/msgpack/intern.go:59-74 | Both sides learn from three bytes on and up to 65535 entries, and only in interning mode |
| `Intern.InternRun` | pkg/msgpack/intern.go:131-241 | Any run of strings in step, from any shared one-to-one dictionary and past the cap: the decoder returns them in order, stops at the end, and its list is the inverse of the encoder's map |
| `Intern.InverseThroughout` | pkg/msgpack/intern.go:131-241 | The dictionaries are inverse before and after every string of a run if and only if the modes agree wherever they make a difference |
| `Intern.InternExact` | pkg/msgpack/encode_slice.go:66-71 | From every point of a run whatever is sent next in matching modes arrives, if and only if the modes agree wherever they make a difference |
| `Intern.SilentCorruption` | pkg/msgpack/intern.go:226-241 | For all learnable s and t: s sent plain and read interned, then t sent twice, gives s for the second t with no error |
| `Intern.EncoderAhead` | pkg/msgpack/intern.go:218-224 | A string learned by the encoder alone is refused when it is sent again |
| `Intern.ExchangeOnBytes` | pkg/msgpack/decode_string.go:60-70 | Reading the bytes of a run is running the two machines string by string, whatever the modes |
| `Intern.InterfaceRun` | pkg/msgpack/decode.go:572-574 | The interface decoder reads back an array of interned strings if and only if no string learned on the way is sent again, and refuses it otherwise |
| `Queries.FaithfulPaths` | pkg/msgpack/decode_query.go:102-148 | With interning off, from any dictionary, a path is answered exactly as it reads on the tree (values, order, errors), on every well-formed stream within the limits, if and only if it holds at most one asterisk |
| `Queries.AtoiOfDecimal` | pkg/msgpack/decode_query.go:126-129 | The decimal text of every int is read as that int |
| `Queries.AtoiExact` | pkg/msgpack/decode_query.go:126-129 | A key is a number exactly when it is an optional sign and one or more digits whose place value, with the sign, is an int, and it is then that value |
| `Queries.FirstKeyAndRest` | pkg/msgpack/decode_query.go:18-27 | A query is its first key, the first dot and the rest |
| `Queries.KeysOfSpelled` | pkg/msgpack/decode_query.go:18-27 | Non-empty keys without dots, joined by dots, are the keys of the path |
| `Queries.EvalElement` | pkg/msgpack/decode_query.go:126-147 | A decimal key selects that element of an array, counted from zero, and nothing beyond its ends |
| `Queries.EvalFirst` | pkg/msgpack/decode_query.go:78-92 | Of equal keys the first entry is selected |
| `Queries.EvalMissing` | pkg/msgpack/decode_query.go:78-99 | A key that is not there selects nothing |
| `Queries.EvalEvery` | pkg/msgpack/decode_query.go:111-124 | An asterisk selects from every element, in order; one error is an error of the whole |
| `Queries.RunIsEval` | pkg/msgpack/decode_query.go:42-148 | With interning off, from any dictionary, and at most one asterisk, the machine on bytes computes the meaning of the path on the tree, and inside an asterisk it ends exactly where the value ends |
| `Queries.RunAllIsEval` | pkg/msgpack/decode_query.go:111-124 | With interning off, each element's query under an asterisk ends at the end of that element |
| `Queries.TrapSprings` | pkg/msgpack/decode_query.go:111-124 | For any two asterisks in a path, a stream on which the path has an answer and the query fails |
| `QueryDecoders.Query` | pkg/msgpack/decode_query.go:32-40 | The result is the machine's, in any mode; with interning off, at most one asterisk and a well-formed stream within the limits it is the path's meaning on the tree |
| `QueryDecoders.QueryNext` | pkg/msgpack/decode_query.go:42-67 | One key off the path: values, position, flag and dictionary are the machine's; depth restored |
| `QueryDecoders.QueryMapKey` | pkg/msgpack/decode_query.go:69-100 | The first entry of the name is queried, the others skipped, as the machine does |
| `QueryDecoders.QueryEntries` | pkg/msgpack/decode_query.go:78-99 | The loop over the entries |
| `QueryDecoders.QueryArrayIndex` | pkg/msgpack/decode_query.go:102-148 | Asterisk, index or error, as the machine does |
| `QueryDecoders.QueryEach` | pkg/msgpack/decode_query.go:111-124 | The asterisk loop, with the flag as the inner queries leave it |
| `QueryDecoders.QueryAt` | pkg/msgpack/decode_query.go:126-147 | The index loop |
| `QueryDecoders.QueryResult.NextKey` | pkg/msgpack/decode_query.go:18-27 | Splits at the first dot |
| `Structs.UnknownFieldsIgnored` | pkg/msgpack/decode_map.go:377-406 | With interning off, from any dictionary, and unknown fields allowed: any number of unknown entries, inserted anywhere in a body with any values within the limits, leave success and the decoded fields unchanged, and the end of the body is still found |
| `Structs.FieldsOfKnown` | pkg/msgpack/decode_map.go:377-406 | With interning off and unknown fields allowed the fields depend on the known entries alone |
| `Structs.DecodeStruct` | pkg/msgpack/decode_map.go:377-406 | The field loop stores exactly what the body says over what the struct held; a nil body zeroes it |
| `Structs.LastFieldWins` | pkg/msgpack/decode_map.go:384-402 | One more entry at the end of a body stores the field of that name over an earlier one, passes any other name over, or fails on it when unknown names are disallowed |
| `Slices.DecodeSliceValue` | pkg/msgpack/decode_slice.go:103-147 | For bools, integers and floats of every width: whatever slice was passed, it ends as exactly the decoded elements, each in the range of its type and congruent to the number on the wire; with limits on its length never exceeds the larger of the old capacity and the elements decoded plus 10^6 |
| `Slices.FillSlice` | pkg/msgpack/decode_slice.go:135-146 | The element loop of the same, on success and failure |
| `Slices.DecodeElement` | pkg/msgpack/decode_number.go:288-322 | One scalar element, as ElemMeans says, with the depth restored |
| `Slices.ElemMeans` | pkg/msgpack/decode_number.go:306-322 | An element is in the range of its type and congruent to the number read, which is kept if it fits; bools and floats are what was read |
| `Slices.ElemsMean` | pkg/msgpack/decode_slice.go:135-144 | The same for every element of a row, at the place where it starts |
| `Slices.NilIsZero` | pkg/msgpack/decode_number.go:147-150 | The zero an element starts out as is what a nil is read as |
| `Slices.GrowSlice` | pkg/msgpack/decode_slice.go:149-156 | Grows towards n by at most 10^6, keeping what is there |
| `Time.UnpackPack` | pkg/msgpack/time.go:58-82 | Every instant is read back from its payload |
| `Time.Layouts` | pkg/msgpack/time.go:58-82 | The three layouts of the specification, field by field |
| `Time.UnpackMeans` | pkg/msgpack/time.go:135-158 | Of any payload: the length tells the layout, other lengths are refused, and what is read is the same point in time with nanoseconds below a second |
| `Time.PackShortest` | pkg/msgpack/time.go:135-158 | The layout is the shortest the reader maps to the instant, except exactly in second 2^34 below 2^30 - 10^9 nanoseconds |
| `Time.Overlong` | pkg/msgpack/time.go:135-158 | The shorter payload in the excepted case |
| `Numbers.SmallestIntRoundTrip` | pkg/msgpack/encode_number.go:140-157 | Every int64 is read back, and no integer form read as the same number is shorter |
| `Numbers.SmallestUintRoundTrip` | pkg/msgpack/encode_number.go:122-136 | Every uint64 is read back |
| `Numbers.SmallestUintShortest` | pkg/msgpack/decode_number.go:91-118 | Shortest if and only if the number is below 2^64 - 2^31 |
| `Numbers.DecodersAgree` | pkg/msgpack/decode_number.go:147-175 | The signed and unsigned decoders agree modulo 2^64 on every integer form |
| `Floats.WholeIsInteger` | pkg/msgpack/decode_number.go:128-129 | The truncation test on bits is integrality of the real value, and then the two agree |
| `Floats.ToInt64Exact` | pkg/msgpack/decode_number.go:176-187 | Accepted exactly when finite, integral and within -2^63 and 2^63; converted without change except 2^63 |
| `Floats.ToUint64Exact` | pkg/msgpack/decode_number.go:119-132 | Accepted exactly when finite, integral and within 0 and 2^64; converted without change except 2^64 |
| `Floats.Widen32Exact` | pkg/msgpack/decode_number.go:225-232 | Turning a finite float32 into a float64 keeps its value, subnormals included |
| `Floats.Widen32Special` | pkg/msgpack/decode_number.go:225-232 | NaNs go to NaNs, infinities to infinities and nothing else does; the sign is kept, that of zero included; a NaN keeps its payload with the quiet bit set |
| `Floats.Landmarks` | pkg/msgpack/decode_number.go:206-238 | One, minus two, the infinities and the largest finite numbers of both formats, by their patterns |
| `Rounding.WholeComesBack` | pkg/msgpack/encode_number.go:174 | A whole float is recovered bit for bit from its integer, negative zero excepted |
| `Rounding.TruncatedTowardsZero` | pkg/msgpack/encode_number.go:161-174 | Conversion to an integer cuts off towards zero, by less than one |
| `Rounding.ConversionInRange` | pkg/msgpack/decode_number.go:241-245 | An int64 as a float is a whole number between -2^63 and 2^63, never negative zero |
| `Rounding.ToNearestEven` | pkg/msgpack/decode_number.go:213-245 | For float32 and float64: no finite float is nearer to n than the conversion of n, ties go to the even pattern, and it is exact up to 2^24 or 2^53 |
| `CompactFloats.CompactRoundTrip` | pkg/msgpack/encode_number.go:159-179 | For both widths: compact encoding and float decoding return every pattern bit for bit, whatever an out-of-range conversion yields, except that negative zero becomes zero |
| `CompactFloats.CompactWhen` | pkg/msgpack/encode_number.go:159-179 | For both widths: the integer form is taken exactly for whole values from -2^63 up to but excluding 2^63, and for 2^63 if the hardware's conversion of it rounds back; the integer is the value itself in the first case only |
| `CompactFloats.EqualIsNumeric` | pkg/msgpack/encode_number.go:174 | Comparing patterns is comparing the real numbers they denote; an infinity equals itself only, a NaN nothing |

## Left out

- Encode: its contract covers dictionaries that are one-to-one and hold the indexes from zero up, as every dictionary an encoder builds itself is; for any other map given by the caller it promises nothing about whole trees, while EncodeString covers single strings. EncodeSlice, EncodeMap, EncodeMapSorted and Append are under the same condition. A nil slice or map is the value nil.
- DecodeInterfaceExt: a registered decoder is a predicate saying which payloads it accepts; it reads exactly its payload, and its value is the payload. The ids -1 and -128 are taken as not registered anew.
- DecodeStruct: fields are a table of names, each holding what the interface decoder makes of its value; a zeroed struct is an empty table. Per-field decoders, array-encoded structs, inlining and omission are not modelled.
- DecodeSliceValue: for scalar elements; string, pointer and container elements are not modelled.
- Pack, Unpack: model the ext payload; RFC 3339 strings, the two-element array form and the id 13 of `DecodeTime` are not modelled.
- FaithfulPaths: for keys shorter than 2^32 bytes, which a map key in the format is, and for readers with interning off; with interning on the contract of Query gives the machine's result, and SkippedTree says when what is passed over matters.
- UnknownFieldsIgnored, FieldsOfKnown: with interning off; with interning on DecodeStruct gives the result, and SkippedTree says when a passed-over value matters.
- InternRun: the starting dictionary is within 2^32 entries, the largest index a reference can carry.
- Reflection dispatch, type caches, struct tags, `Unmarshal`'s pointer handling, untyped and typed maps, custom map decoders and user callbacks.
- Error values: every failure is one failure; messages and kinds are not told apart.
- Where a failed read leaves the stream, beyond its not moving backwards.
- Aliasing: returned slices and temporary strings that share the scratch buffer are values here.
- I/O: the reader is a byte sequence with a position and a flag saying whether the remaining length is known; read and write errors other than the end of input do not occur.
- Pools, concurrency and garbage collection, apart from the storage a recycled encoder keeps. `ResetDict` leaves the depth limit alone, so the limit is a field and never assumed to be the default.
- `int` is 64 bits wide, so the conversion of a 32-bit length never fails; shifts and masks are written as division and remainder. Lengths of 2^32 and more are outside the format and not encodable. Dictionary indexes given by a caller are not negative.
- The conversion of an out-of-range float to an integer is a parameter, a function of the float in the encoder and a number in the decoder, since the language leaves it to the hardware.
- The App Engine helpers and the other packages of the repository.
