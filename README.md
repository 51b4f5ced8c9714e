# vmz core in Dafny

vmz is a small stack virtual machine written in C, all of it in `src/main.c`.
This project models four parts of that file and proves properties about them:

- **Flags** (`flags.dfy`, module `Flags`) is the comparison-flags register.
  It is one byte, and `flag_set`, `flag_reset` and `is` work on one bit of it
  per flag. The C struct `Flags` becomes a class whose `buf` field the methods
  update in place. The bit operations behind those methods are functions on
  `bv8`, with lemmas about how they combine.
- **NaN-boxing** (`nanbox.dfy`, module `NanBox`) covers the masks and the
  helpers that build a boxed word: an all-ones exponent, a 4-bit type tag, a
  48-bit payload and a sign bit. Every word is a `bv64`. The C code moves
  between `double`, `int64_t` and `uint64_t` with casts; the masks show that a
  reinterpretation of the bit pattern is meant, so each cast is the identity
  on the `bv64`.
- **Instructions** (`instructions.dfy`, module `Instructions`) holds the
  opcodes, the operand union `Inst_Value` as a datatype, and the
  constructors `inst_new` and `inst_value_new_*`.
- **Codec** (`codec.dfy`, module `Codec`) covers the binary record
  `[opcode][operand type][payload]` in a 14-byte buffer. The payload is 8
  little-endian bytes for NAN, I64, U64 and F64 operands, nothing for NONE,
  and `[length][characters]` for STR.
  - The record layout is specified by the functions `Encode` and `Decode`,
    which are proved to be inverse in both directions.
  - The C routines become the methods `InstValueToBytes`, `InstToBytes`,
    `InstValueFromBytes` and `InstFromBytes`. They fill and read arrays and
    are proved against those functions.

Two behaviours of the code are worth stating up front:

- **Boxed magnitudes.** `nan_set_value` goes through `abs((int) v)`, so only
  magnitudes below 2^31 survive in the 48-bit payload. The sign of a negative
  value is lost. Zero is the only value stored with bit 63 set.
  `BoxRoundTrip`, `ZeroSetsSignBit` and `HighBitsDropped` state this
  behaviour.
- **Truncated records.** The C decoder reads past an input shorter than the
  record it describes. Here the decoder reports a third status, 2, for such a
  record; C has no such status.

## Model

| member | source | states |
|---|---|---|
| Flags.Bit | src/main.c:357-377 | the mask `ONE << flag` of a flag is a single bit, inside the low six bits |
| Flags.BitsDisjoint | src/main.c:344-351 | different flags have disjoint masks |
| Flags.Test | src/main.c:374-377 | `is` holds exactly when the flag's bit is set |
| Flags.WithFlag | src/main.c:364-367 | setting turns the flag's bit on and leaves every other bit as it was |
| Flags.WithoutFlag | src/main.c:369-372 | resetting turns the flag's bit off and leaves every other bit as it was |
| Flags.SetThenTest | src/main.c:364-377 | after a set, a flag reads true exactly if it is the flag set or it was true before |
| Flags.ResetThenTest | src/main.c:369-377 | after a reset, a flag reads true exactly if it is another flag that was true before |
| Flags.SetResetIdempotent | src/main.c:364-372 | setting twice equals setting once; resetting twice equals resetting once |
| Flags.ResetAfterSet | src/main.c:364-372 | a reset after a set leaves the flag false and the register as a reset alone would |
| Flags.DistinctFlagsCommute | src/main.c:364-372 | sets commute; a set and a reset of different flags commute |
| Flags.Flags.constructor | src/main.c:359-362 | `flag_new` gives an all-zero register in which no flag holds |
| Flags.Flags.Is | src/main.c:374-377 | `is` on the register holds exactly when the flag's bit of `buf` is set |
| Flags.Flags.Set | src/main.c:364-367 | `flag_set` makes its flag hold; every other flag is unchanged |
| Flags.Flags.Reset | src/main.c:369-372 | `flag_reset` makes its flag fail; every other flag is unchanged |
| NanBox.TypeCode | src/main.c:8-14 | the type tags are numbered 0..4 |
| NanBox.TypeCodeInjective | src/main.c:8-14 | distinct type tags have distinct numbers |
| NanBox.MasksPartitionWord | src/main.c:20-22 | the masks equal the C shift expressions; with the sign bit they are disjoint and cover the word |
| NanBox.Magnitude | src/main.c:47-52 | the magnitude of a two's complement pattern is the value when non-negative and its negation otherwise |
| NanBox.MakeInf | src/main.c:24-27 | `nan_make_inf` sets every exponent bit and nothing else |
| NanBox.TypeField | src/main.c:41-45 | the tag read back occupies 4 bits and is the word's bits 48..51 |
| NanBox.SetType | src/main.c:34-39 | `nan_set_type` writes the tag's low 4 bits into bits 48..51 and keeps every other bit |
| NanBox.Payload | src/main.c:47-52 | the payload `abs((int) v) & VALUE_MASK` has no bits outside the 48-bit field |
| NanBox.PayloadFits31 | src/main.c:47-52 | for a value strictly between -2^31 and 2^31, the payload is its magnitude |
| NanBox.PayloadNonNegative | src/main.c:47-52 | a value in 0..2^31-1 is its own payload |
| NanBox.PayloadNegative | src/main.c:47-52 | a value in -(2^31-1)..-1 has its negation as payload |
| NanBox.SetValue | src/main.c:47-52 | `nan_set_value` keeps the exponent and tag, writes the payload, and sets the sign bit exactly for zero (otherwise the sign bit is kept) |
| NanBox.GetValue | src/main.c:54-59 | `nan_get_value` reads the payload as a magnitude, negated exactly when the sign bit is set and the payload is non-zero |
| NanBox.GetSetValue | src/main.c:47-59 | on a word with a clear sign bit, reading back after writing gives 0 for zero and the payload otherwise |
| NanBox.SetValueRoundTrip | src/main.c:47-59 | for a value strictly between -2^31 and 2^31, reading back gives its magnitude, never a negative value |
| NanBox.ZeroSetsSignBit | src/main.c:47-59 | writing zero sets the sign bit and an empty payload, and zero reads back |
| NanBox.HighBitsDropped | src/main.c:47-59 | only the low 32 bits count, read as a signed `int`: 2^32 + 5 reads back as 5, 2^32 as 0, 2^33 - 1 as 1, and -2^31 as 2^48 - 2^31 |
| NanBox.Box | src/main.c:111-129 | a boxed word has all exponent bits set, the chosen tag, and the payload and sign that `nan_set_value` writes |
| NanBox.BoxReadsPayload | src/main.c:111-129 | a boxed value reads back as 0 for zero and as its payload otherwise |
| NanBox.ReadBackFits31 | src/main.c:47-59 | for a value strictly between -2^31 and 2^31, what a box reads back (0 for zero, the payload otherwise) is its magnitude |
| NanBox.BoxRoundTrip | src/main.c:111-129 | a boxed value strictly between -2^31 and 2^31 reads back as its magnitude |
| NanBox.GetValueReadsPayloadAndSign | src/main.c:54-59 | `nan_get_value` depends only on the payload and the sign bit |
| NanBox.FromI64 | src/main.c:111-114 | `nan_from_i64` gives a tagged Int64 word; every value reads back as 0 for zero and as its payload otherwise, and so any value strictly between -2^31 and 2^31 reads back as its magnitude |
| NanBox.FromU64 | src/main.c:116-119 | `nan_from_u64` gives a tagged UInt64 word; every value reads back as 0 for zero and as its payload otherwise, and so any value below 2^31 reads back unchanged |
| NanBox.FromU8 | src/main.c:121-124 | `nan_from_u8` gives a tagged Byte word from which every byte reads back |
| NanBox.FromStrLength | src/main.c:126-129 | `nan_from_str` gives a tagged Str word; every length reads back as 0 for zero and as its payload otherwise, and so a length below 2^31 reads back unchanged |
| Instructions.InstTypeCode | src/main.c:131-139 | the opcodes are numbered 0..26, and `inst_type_to_bytes` writes that number as the opcode byte |
| Instructions.InstTypeCodeInjective | src/main.c:131-139 | distinct opcodes have distinct numbers |
| Instructions.ValueType | src/main.c:144-165 | each operand kind has its own type number in 0..5, and the number identifies the kind |
| Instructions.InstNew | src/main.c:172-178 | `inst_new` pairs the opcode byte with the operand, both unchanged; the decoder passes the byte it read, other callers `InstTypeCode` of an opcode |
| Instructions.NewU64 | src/main.c:180-188 | the operand has type U64 and holds the value |
| Instructions.NewF64 | src/main.c:190-198 | the operand has type F64 and holds the double's bit pattern |
| Instructions.NewVoid | src/main.c:200-208 | the operand has type NONE |
| Instructions.NewNan | src/main.c:210-218 | the operand has type NAN and holds the boxed word |
| Instructions.NewStr | src/main.c:220-228 | the operand has type STR and holds the string's content |
| Instructions.NewI64 | src/main.c:230-238 | the operand has type I64 and holds the value |
| Codec.WordOf | src/main.c:300-326 | the word the decoder's 8-byte `memcpy` reads holds byte k of the input in its bits 8k..8k+7 (little-endian) |
| Codec.WordBytes | src/main.c:249-266 | memcpy of a 64-bit value gives 8 bytes that, read little-endian, give the value back |
| Codec.WordBytesOf | src/main.c:300-326 | any 8 bytes are the bytes of the word they encode |
| Codec.WordValue | src/main.c:300-326 | the operand built for an 8-byte type number has that type and that payload |
| Codec.CStr | src/main.c:327-333 | the string taken from a run of bytes is its longest NUL-free prefix: the bytes up to the first NUL, or all of them |
| Codec.CStrOfCString | src/main.c:327-333 | a NUL-free run of bytes is taken whole |
| Codec.StrFits | src/main.c:267-271 | the corrected capacity test admits exactly the strings shorter than 12 bytes |
| Codec.StrFitsAsWritten | src/main.c:266-271 | the C test `len > INST_STR_CAP - size` at size 2 admits strings of up to 12 bytes, one more length than the corrected test |
| Codec.StrFitsExactly | src/main.c:267-271 | the corrected capacity test admits a string exactly when its record fits in 14 bytes, i.e. when it is shorter than 12 bytes |
| Codec.ValueBytes | src/main.c:244-279 | the bytes from index 1 start with the operand type and take 1..13 bytes; only a string too long for the buffer yields none |
| Codec.Encode | src/main.c:244-292 | the record opens with the opcode and the operand type; an 8-byte operand's record is 10 bytes long; NONE's is 2; STR's is 3 + length, holding the length and the characters; only a string of 12 or more bytes fails |
| Codec.RecordLength | src/main.c:296-333 | the bytes the decoder's cursor passes over: at least the 2 header bytes, plus the length byte for STR, at most 258 |
| Codec.Complete | src/main.c:296-333 | a complete record has its header, and for STR its length byte, and lies inside the input |
| Codec.EncodedRecordComplete | src/main.c:244-333 | the bytes the encoder produces, whatever follows them, are a complete record whose length is exactly that of the encoding |
| Codec.Decode | src/main.c:294-337 | an operand type above 5 is status 1, a record shorter than its header says is a truncation, and success keeps the opcode byte and operand type |
| Codec.DecodeStrCase | src/main.c:327-333 | a complete STR record decodes to the string read from its length-prefixed bytes |
| Codec.DecodeWordCase | src/main.c:296-326 | a complete 8-byte record decodes to the operand of its type with the little-endian word |
| Codec.DecodeEncode | src/main.c:244-337 | decoding the record of any encodable instruction, whatever bytes follow it, gives that instruction back |
| Codec.EncodeDecode | src/main.c:244-337 | a well-formed record is re-encoded to exactly its own bytes |
| Codec.EncodeStrCase | src/main.c:267-276 | a string that fits encodes as opcode, STR, length, characters |
| Codec.DecodeStrRecord | src/main.c:327-333 | a STR record whose characters contain no NUL decodes to exactly those characters |
| Codec.EncodeStrRecord | src/main.c:267-276 | re-encoding that string gives the STR record back |
| Codec.EncodeDecodeStr | src/main.c:267-276 | a well-formed STR record is re-encoded to exactly its own bytes |
| Codec.EncodeDecodeWord | src/main.c:249-266 | a well-formed 8-byte record is re-encoded to exactly its own bytes |
| Codec.CopyInto | src/main.c:249-276 | memcpy into the buffer writes the bytes at the offset and leaves every other index as it was |
| Codec.CopyFrom | src/main.c:296-333 | memcpy out of the record yields exactly the bytes at the offset |
| Codec.WordRecordInBuffer | src/main.c:249-266 | a buffer holding the operand type and the word from index 1 holds the operand's bytes there |
| Codec.StrRecordInBuffer | src/main.c:267-276 | a buffer holding STR, the length and the characters from index 1 holds the operand's bytes there |
| Codec.InstValueToBytes | src/main.c:244-279 | `inst_value_to_bytes` gives a fresh 14-byte buffer holding, from index 1, the operand's record; it fails exactly for a string too long for the buffer |
| Codec.InstToBytes | src/main.c:286-292 | `inst_to_bytes` gives a fresh 14-byte buffer whose head is the instruction's record; it fails exactly when the record does not fit |
| Codec.Status | src/main.c:294-337 | status 0 is success and status 1 is an unknown operand type |
| Codec.InstValueFromBytes | src/main.c:294-337 | `inst_value_from_bytes` returns the status of decoding the buffer; on success the instruction is the decoded one, and otherwise the caller's instruction is unchanged |
| Codec.InstFromBytes | src/main.c:339-342 | `inst_from_bytes` behaves exactly as `inst_value_from_bytes` |
| Codec.StrBytesAsWritten | src/main.c:267-276 | the string branch as the C writes it emits the record exactly for the strings that pass the C test, and returns none for every longer one |
| Codec.StrBytesAsWrittenOverruns | src/main.c:267-276 | a 12-byte string passes the C test, yet its record takes 15 bytes of the 14-byte buffer |
| Codec.NoneRecordAsWritten | src/main.c:306-308 | the NONE case as the C writes it: the status is that of a successful decode, yet the instruction returned is the decoded one only if the caller's instruction already was it |
| Codec.NoneRecordAsWrittenKeepsStale | src/main.c:306-308 | as written, decoding a NONE record reports success and leaves a stale instruction behind |

## Left out

- The execution engine is not modelled: the `Vm` struct, `main` and the instruction semantics. The core is the data model and the codec.
- `nan_is_nan`, `nan_is_f64`, `nan_is_i64`, `nan_is_u64`, `nan_is_str` and the NaN test in `nan_get_type` are left out. All of them rest on the IEEE-754 comparison `v != v` of doubles, which the model does not cover: it keeps every double as its bit pattern.
- `nan_from_f64` and `nan_as_f64` are the identity on the double. The model covers them as that identity on the bit pattern: the decoder's NAN path through `nan_from_f64` is the word stored unchanged by `Codec.WordValue` and `Instructions.NewNan`.
- `nan_as_i64`, `nan_as_u64`, `nan_as_u8` and `nan_as_usize` are left out. Each is a cast of `NanBox.GetValue`'s result: to `int64_t`, `uint64_t`, `size_t`, or, for `nan_as_u8`, to `uint8_t` and then `bool`: true exactly when the low byte of the value is non-zero, so a boxed 256 gives false.
- NanBox.FromStrLength: takes the string's length instead of the string, because `strlen` is a library call.
- NanBox.FromI64, NanBox.FromU64, NanBox.FromStrLength: their magnitude read-back covers only arguments below 2^31 in magnitude. A larger argument reads back as the absolute value of its low 32 bits taken as a signed `int`, widened back to 64 bits: that is `NanBox.Payload`, which the all-inputs ensures of each of these functions states. So 2^33 - 1 reads back as 1; `HighBitsDropped` shows this and other examples.
- NanBox.Payload: `abs` of the most negative `int` is undefined behaviour in C. The model takes the two's complement wrap. The result, -2^31 again, is widened back to 64 bits, so the payload is 2^48 - 2^31.
- The macros `INST_CAP` and `INST_NONE` are left out: their expansions are not valid C, and nothing uses them.
- The diagnostic `fprintf` and the `assert` abort in `inst_to_bytes` are left out. The encoder methods report failure with `ok == false` instead.
- Codec.InstValueToBytes: returns a fresh array per call rather than the one static buffer, so aliasing between successive results is not modelled. The bytes a call leaves unwritten are not stated.
- Codec.InstValueFromBytes: the 8-byte cases copy `idx + 8` = 10 bytes into the 8-byte local `f`, which writes past it in C. The STR case copies `idx + len` = 3 + `len` bytes into `char str[16]`, which writes past it only when `len` > 13. The model copies exactly 8 bytes or `len` bytes, so that stack corruption and the extra bytes read are not modelled.
- Codec.InstValueFromBytes: a truncated record yields status 2, where C reads past the input. Unknown opcode bytes are kept as bytes without any check, as in C.
- Codec.InstValueFromBytes: the C STR result points into a local array that is out of scope once the call returns. The model keeps the string by value.
- Codec.InstValueFromBytes: C never writes a NUL at `str[len]`. A later `strlen` of the C string may go on through the 3 bytes copied after the characters and then into uninitialised stack, stopping at the first NUL among them. The model ends the string at `len` bytes, or at an earlier NUL among them (`Codec.CStr`).
- Host byte order is taken to be little-endian for the 8-byte payloads.

## Findings

| source | as written | input that shows it | evidently intended | confidence | as-written member | corrected member |
|---|---|---|---|---|---|---|
| src/main.c:267-276 | the capacity test `len > INST_STR_CAP - size` does not count the length byte | a 12-byte string: the test passes, and the record needs bytes 0..14 of a 14-byte buffer | reject a string unless `len + 1 <= INST_STR_CAP - size`, so that no write goes past the buffer | high (not executed) | Codec.StrBytesAsWritten, Codec.StrBytesAsWrittenOverruns | Codec.StrFits, Codec.StrFitsExactly, Codec.InstValueToBytes |
| src/main.c:306-308 | the NONE case returns 0 without writing `*ret` | the record `[0, 1]` of `push` with no operand, decoded into a variable that holds `push 7`: success, with `push 7` left behind | store `inst_new(ty, inst_value_new_void())`, as every other case stores its instruction | medium (not executed) | Codec.NoneRecordAsWritten, Codec.NoneRecordAsWrittenKeepsStale | Codec.Decode, Codec.DecodeEncode, Codec.InstValueFromBytes |
