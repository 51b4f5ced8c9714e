/** The binary record of one instruction:
      [opcode][operand type][payload]
    where the payload is the 8 bytes of the 64-bit pattern (host order, taken
    to be little-endian) for NAN, I64, U64 and F64 operands, nothing for
    NONE, and [length][characters] for STR.  A record lives in a buffer of
    INST_STR_CAP = 14 bytes.

    Each call to the encoder fills a buffer of its own (the C code reuses one
    static buffer); the decoder reads exactly the bytes the record describes
    and reports a truncated record instead of reading past its input. */
module Codec {
  import opened Instructions

  const INST_STR_CAP: nat := 14

  datatype Option<T> = None | Some(value: T)

  /** How decoding fails: an operand type outside 0..5 (the C failure code
      1), or an input shorter than the record it describes. */
  datatype DecodeError = UnknownValueType | Truncated

  datatype Result<T> = Ok(value: T) | Err(error: DecodeError)

  // ---------------------------------------------------------------------
  // 8-byte payloads

  /** The 64-bit pattern stored little-endian in 8 bytes. */
  function WordOf(s: seq<bv8>): (w: bv64)
    requires |s| == 8
    ensures w & 0xFF == s[0] as bv64 && (w >> 8) & 0xFF == s[1] as bv64
    ensures (w >> 16) & 0xFF == s[2] as bv64 && (w >> 24) & 0xFF == s[3] as bv64
    ensures (w >> 32) & 0xFF == s[4] as bv64 && (w >> 40) & 0xFF == s[5] as bv64
    ensures (w >> 48) & 0xFF == s[6] as bv64 && w >> 56 == s[7] as bv64
  {
    (s[0] as bv64) | ((s[1] as bv64) << 8) | ((s[2] as bv64) << 16) | ((s[3] as bv64) << 24) |
    ((s[4] as bv64) << 32) | ((s[5] as bv64) << 40) | ((s[6] as bv64) << 48) | ((s[7] as bv64) << 56)
  }

  /** The 8 bytes memcpy copies out of a 64-bit value, low byte first. */
  function WordBytes(w: bv64): (r: seq<bv8>)
    ensures |r| == 8
    ensures WordOf(r) == w
  {
    [(w & 0xFF) as bv8, ((w >> 8) & 0xFF) as bv8, ((w >> 16) & 0xFF) as bv8, ((w >> 24) & 0xFF) as bv8,
     ((w >> 32) & 0xFF) as bv8, ((w >> 40) & 0xFF) as bv8, ((w >> 48) & 0xFF) as bv8, ((w >> 56) & 0xFF) as bv8]
  }

  /** Every 8 bytes are the bytes of the word they encode. */
  lemma WordBytesOf(s: seq<bv8>)
    requires |s| == 8
    ensures WordBytes(WordOf(s)) == s
  {
  }

  /** The operands whose payload is one 64-bit word. */
  predicate IsWordValue(v: InstValue)
  {
    v.NanValue? || v.I64Value? || v.U64Value? || v.F64Value?
  }

  function WordPayload(v: InstValue): bv64
    requires IsWordValue(v)
  {
    match v
    case NanValue(w) => w
    case I64Value(w) => w
    case U64Value(w) => w
    case F64Value(w) => w
  }

  /** The word operand of a given operand type. */
  function WordValue(vty: bv8, w: bv64): (v: InstValue)
    requires vty in {INST_V_TYPE_NAN, INST_V_TYPE_I64, INST_V_TYPE_U64, INST_V_TYPE_F64}
    ensures IsWordValue(v) && ValueType(v) == vty && WordPayload(v) == w
  {
    if vty == INST_V_TYPE_NAN then NewNan(w)
    else if vty == INST_V_TYPE_I64 then NewI64(w)
    else if vty == INST_V_TYPE_U64 then NewU64(w)
    else NewF64(w)
  }

  // ---------------------------------------------------------------------
  // Strings

  /** The string read from a run of bytes, as strlen sees it: everything
      before the first NUL. */
  function CStr(s: seq<bv8>): (r: CString)
    ensures |r| <= |s| && r == s[..|r|]
    ensures |r| < |s| ==> s[|r|] == 0
  {
    if |s| == 0 || s[0] == 0 then [] else [s[0]] + CStr(s[1..])
  }

  /** A run of bytes without NUL reads back whole. */
  lemma CStrOfCString(s: CString)
    ensures CStr(s) == s
  {
  }

  /** The length byte of a string, which fits since the string does. */
  lemma LengthByte(n: nat)
    requires n < INST_STR_CAP
    ensures (n as bv8) as int == n
  {
  }

  /** Whether a string of `len` bytes fits in the record: after the opcode
      and the operand type come the length byte and the characters. */
  predicate StrFits(len: nat): (r: bool)
    ensures r <==> len < 12
  {
    len + 1 <= INST_STR_CAP - 2
  }

  /** The capacity test as the C code writes it, `len > INST_STR_CAP - size`
      with size == 2: it leaves the length byte out, and so admits one
      length more than the corrected test. */
  predicate StrFitsAsWritten(len: nat): (r: bool)
    ensures r <==> len <= 12
    ensures r && !StrFits(len) <==> len == 12
  {
    !(len > INST_STR_CAP - 2)
  }

  /** The string branch of inst_value_to_bytes as the C code writes it: the
      operand type, the length byte and the characters, for every string
      the C test lets through. */
  function StrBytesAsWritten(s: CString): (r: Option<seq<bv8>>)
    ensures r.Some? <==> StrFitsAsWritten(|s|)
  {
    if StrFitsAsWritten(|s|) then Some([INST_V_TYPE_STR, |s| as bv8] + s) else None
  }

  /** A 12-byte string passes the C test, yet with the opcode byte in front
      its record takes 15 bytes: one past the 14-byte buffer. */
  lemma StrBytesAsWrittenOverruns(s: CString)
    requires |s| == 12
    ensures StrBytesAsWritten(s).Some?
    ensures 1 + |StrBytesAsWritten(s).value| == INST_STR_CAP + 1
  {
  }

  /** The corrected test admits exactly the strings whose record fits. */
  lemma StrFitsExactly(len: nat)
    ensures StrFits(len) <==> 3 + len <= INST_STR_CAP
    ensures StrFits(len) <==> len < 12
  {
  }

  // ---------------------------------------------------------------------
  // Encoding, as functions

  /** What inst_value_to_bytes writes from index 1 on: the operand type and
      the payload; None when a string does not fit. */
  function ValueBytes(v: InstValue): (r: Option<seq<bv8>>)
    ensures r.None? <==> v.StrValue? && !StrFits(|v.str|)
    ensures r.Some? ==> 1 <= |r.value| <= INST_STR_CAP - 1 && r.value[0] == ValueType(v)
  {
    match v
    case NoneValue => Some([INST_V_TYPE_NONE])
    case StrValue(s) =>
      if StrFits(|s|) then Some([INST_V_TYPE_STR, |s| as bv8] + s) else None
    case _ => Some([ValueType(v)] + WordBytes(WordPayload(v)))
  }

  /** The record inst_to_bytes produces: the opcode, then ValueBytes.  The
      layout is stated in full. */
  function Encode(inst: Inst): (r: Option<seq<bv8>>)
    ensures r.None? <==> inst.v.StrValue? && |inst.v.str| >= 12
    ensures r.Some? ==> 2 <= |r.value| <= INST_STR_CAP
    ensures r.Some? ==> r.value[0] == inst.ty && r.value[1] == ValueType(inst.v)
    ensures r.Some? && IsWordValue(inst.v) ==>
      |r.value| == 10 && r.value[2..] == WordBytes(WordPayload(inst.v))
    ensures r.Some? && inst.v.NoneValue? ==> |r.value| == 2
    ensures r.Some? && inst.v.StrValue? ==>
      |r.value| == 3 + |inst.v.str| && r.value[2] as int == |inst.v.str| && r.value[3..] == inst.v.str
  {
    match ValueBytes(inst.v)
    case None => None
    case Some(b) =>
      if inst.v.StrValue? then LengthByte(|inst.v.str|); Some([inst.ty] + b)
      else Some([inst.ty] + b)
  }

  // ---------------------------------------------------------------------
  // Decoding, as a function

  /** The number of bytes the record at the head of `bytes` occupies, once
      its header (and, for a string, its length byte) is present. */
  function RecordLength(bytes: seq<bv8>): (n: nat)
    requires |bytes| >= 2
    requires bytes[1] == INST_V_TYPE_STR ==> |bytes| >= 3
    ensures 2 <= n <= 3 + 255
    ensures bytes[1] == INST_V_TYPE_STR ==> n >= 3
  {
    var vty := bytes[1];
    if vty == INST_V_TYPE_NONE then 2
    else if vty == INST_V_TYPE_STR then 3 + bytes[2] as int
    else 10
  }

  /** Whether `bytes` holds the whole record at its head. */
  predicate Complete(bytes: seq<bv8>): (r: bool)
    ensures r ==> |bytes| >= 2 && (bytes[1] == INST_V_TYPE_STR ==> |bytes| >= 3)
    ensures r ==> 2 <= RecordLength(bytes) <= |bytes|
  {
    |bytes| >= 2 && (bytes[1] == INST_V_TYPE_STR ==> |bytes| >= 3) && |bytes| >= RecordLength(bytes)
  }

  /** What inst_value_from_bytes reads from `bytes`.  Bytes after the record
      are ignored. */
  function Decode(bytes: seq<bv8>): (r: Result<Inst>)
    ensures r == Err(UnknownValueType) <==> |bytes| >= 2 && bytes[1] > INST_V_TYPE_STR
    ensures r == Err(Truncated) <==>
      !Complete(bytes) && !(|bytes| >= 2 && bytes[1] > INST_V_TYPE_STR)
    ensures r.Ok? ==> r.value.ty == bytes[0] && ValueType(r.value.v) == bytes[1]
  {
    if |bytes| < 2 then Err(Truncated)
    else
      var ty, vty := bytes[0], bytes[1];
      if vty == INST_V_TYPE_NONE then Ok(Inst(ty, NewVoid()))
      else if vty == INST_V_TYPE_STR then
        if |bytes| < 3 then Err(Truncated)
        else
          var len := bytes[2] as int;
          if |bytes| < 3 + len then Err(Truncated)
          else Ok(Inst(ty, NewStr(CStr(bytes[3..3 + len]))))
      else if vty <= INST_V_TYPE_STR then
        if |bytes| < 10 then Err(Truncated)
        else Ok(Inst(ty, WordValue(vty, WordOf(bytes[2..10]))))
      else Err(UnknownValueType)
  }

  /** Decode on a complete string record. */
  lemma DecodeStrCase(bytes: seq<bv8>)
    requires |bytes| >= 3 && bytes[1] == INST_V_TYPE_STR && |bytes| >= 3 + bytes[2] as int
    ensures Decode(bytes) == Ok(Inst(bytes[0], StrValue(CStr(bytes[3..3 + bytes[2] as int]))))
  {
  }

  /** Decode on a complete record with an 8-byte payload. */
  lemma DecodeWordCase(bytes: seq<bv8>)
    requires |bytes| >= 10 && bytes[1] <= INST_V_TYPE_F64 && bytes[1] != INST_V_TYPE_NONE
    ensures Decode(bytes) == Ok(Inst(bytes[0], WordValue(bytes[1], WordOf(bytes[2..10]))))
  {
  }

  /** The record the cursor walks through is exactly the encoded record:
      the bytes Encode produces, whatever follows them, hold a complete
      record of that length. */
  lemma EncodedRecordComplete(inst: Inst, tail: seq<bv8>)
    requires Encode(inst).Some?
    ensures Complete(Encode(inst).value + tail)
    ensures RecordLength(Encode(inst).value + tail) == |Encode(inst).value|
  {
    var r := Encode(inst).value;
    var bytes := r + tail;
    assert bytes[..|r|] == r;
    assert bytes[1] == r[1];
    if inst.v.StrValue? {
      assert bytes[2] == r[2];
    }
  }

  /** Round trip: decoding an encoded record gives back the instruction,
      whatever bytes follow the record in the buffer. */
  lemma {:induction false} DecodeEncode(inst: Inst, tail: seq<bv8>)
    requires Encode(inst).Some?
    ensures Decode(Encode(inst).value + tail) == Ok(inst)
  {
    var r := Encode(inst).value;
    var bytes := r + tail;
    assert bytes[..|r|] == r;
    match inst.v
    case NoneValue =>
    case StrValue(s) =>
      assert bytes[3..3 + |s|] == s;
      CStrOfCString(s);
    case _ =>
      assert bytes[2..10] == r[2..];
  }

  /** A well-formed record: it decodes, and re-encoding it is possible and
      the same bytes (a string must fit and hold no NUL). */
  predicate WellFormedRecord(bytes: seq<bv8>)
  {
    Decode(bytes).Ok? &&
    (bytes[1] == INST_V_TYPE_STR ==>
       bytes[2] as int < 12 && forall i | 3 <= i < 3 + bytes[2] as int :: bytes[i] != 0)
  }

  /** The converse round trip: a well-formed record is the encoding of what
      it decodes to. */
  lemma {:induction false} EncodeDecode(bytes: seq<bv8>)
    requires WellFormedRecord(bytes)
    ensures Encode(Decode(bytes).value) == Some(bytes[..RecordLength(bytes)])
  {
    if bytes[1] == INST_V_TYPE_STR {
      EncodeDecodeStr(bytes);
    } else if bytes[1] == INST_V_TYPE_NONE {
      assert Encode(Decode(bytes).value).value == bytes[..2];
    } else {
      EncodeDecodeWord(bytes);
    }
  }

  /** Encode on a string that fits. */
  lemma EncodeStrCase(ty: bv8, s: CString)
    requires |s| < 12
    ensures Encode(Inst(ty, StrValue(s))) == Some([ty, INST_V_TYPE_STR, |s| as bv8] + s)
  {
    assert ValueBytes(StrValue(s)) == Some([INST_V_TYPE_STR, |s| as bv8] + s);
    assert [ty] + ([INST_V_TYPE_STR, |s| as bv8] + s) == [ty, INST_V_TYPE_STR, |s| as bv8] + s;
  }

  /** A string record without NUL bytes decodes to exactly its bytes. */
  lemma DecodeStrRecord(bytes: seq<bv8>, chars: CString)
    requires |bytes| >= 3 && bytes[1] == INST_V_TYPE_STR && |bytes| >= 3 + bytes[2] as int
    requires chars == bytes[3..3 + bytes[2] as int]
    ensures Decode(bytes) == Ok(Inst(bytes[0], StrValue(chars)))
  {
    DecodeStrCase(bytes);
    CStrOfCString(chars);
  }

  /** Re-encoding that string gives the record back. */
  lemma EncodeStrRecord(bytes: seq<bv8>, chars: CString)
    requires |bytes| >= 3 && bytes[1] == INST_V_TYPE_STR
    requires bytes[2] as int < 12 && |bytes| >= 3 + bytes[2] as int
    requires chars == bytes[3..3 + bytes[2] as int]
    ensures Encode(Inst(bytes[0], StrValue(chars))) == Some(bytes[..3 + bytes[2] as int])
  {
    var len := bytes[2] as int;
    EncodeStrCase(bytes[0], chars);
    LengthByte(len);
    assert bytes[..3 + len] == [bytes[0], bytes[1], bytes[2]] + chars;
  }

  lemma EncodeDecodeStr(bytes: seq<bv8>)
    requires |bytes| >= 3 && bytes[1] == INST_V_TYPE_STR
    requires bytes[2] as int < 12 && |bytes| >= 3 + bytes[2] as int
    requires forall i | 3 <= i < 3 + bytes[2] as int :: bytes[i] != 0
    ensures Encode(Decode(bytes).value) == Some(bytes[..3 + bytes[2] as int])
  {
    var len := bytes[2] as int;
    var raw := bytes[3..3 + len];
    assert forall j | 0 <= j < len :: raw[j] == bytes[3 + j] && bytes[3 + j] != 0;
    var chars: CString := raw;
    DecodeStrRecord(bytes, chars);
    EncodeStrRecord(bytes, chars);
  }

  lemma EncodeDecodeWord(bytes: seq<bv8>)
    requires WellFormedRecord(bytes) && bytes[1] != INST_V_TYPE_STR && bytes[1] != INST_V_TYPE_NONE
    ensures Encode(Decode(bytes).value) == Some(bytes[..RecordLength(bytes)])
  {
    var payload := bytes[2..10];
    WordBytesOf(payload);
    var v := WordValue(bytes[1], WordOf(payload));
    DecodeWordCase(bytes);
    assert ValueBytes(v) == Some([bytes[1]] + payload);
    assert Encode(Inst(bytes[0], v)) == Some([bytes[0]] + ([bytes[1]] + payload));
    assert RecordLength(bytes) == 10;
    assert bytes[..10] == [bytes[0]] + ([bytes[1]] + payload);
  }

  // ---------------------------------------------------------------------
  // The C routines, step by step over buffers

  /** memcpy into a buffer: `src` lands at `at`, nothing else changes. */
  method CopyInto(dst: array<bv8>, at: nat, src: seq<bv8>)
    requires at + |src| <= dst.Length
    modifies dst
    ensures dst[at..at + |src|] == src
    ensures forall i | 0 <= i < dst.Length && !(at <= i < at + |src|) :: dst[i] == old(dst[i])
  {
    var k := 0;
    while k < |src|
      invariant 0 <= k <= |src|
      invariant dst[at..at + k] == src[..k]
      invariant forall i | 0 <= i < dst.Length && !(at <= i < at + k) :: dst[i] == old(dst[i])
    {
      dst[at + k] := src[k];
      k := k + 1;
    }
  }

  /** memcpy out of a buffer: exactly `n` bytes from `at`. */
  method CopyFrom(src: array<bv8>, at: nat, n: nat) returns (dst: seq<bv8>)
    requires at + n <= src.Length
    ensures dst == src[at..at + n]
  {
    dst := [];
    var k := 0;
    while k < n
      invariant 0 <= k <= n
      invariant dst == src[at..at + k]
    {
      dst := dst + [src[at + k]];
      k := k + 1;
    }
  }

  /** A buffer holding the operand type and the word from index 1 holds the
      operand's bytes there. */
  lemma WordRecordInBuffer(b: seq<bv8>, v: InstValue)
    requires IsWordValue(v) && |b| >= 10
    requires b[1] == ValueType(v) && b[2..10] == WordBytes(WordPayload(v))
    ensures ValueBytes(v).Some? && b[1..10] == ValueBytes(v).value
  {
    assert b[1..10] == [b[1]] + b[2..10];
  }

  /** Likewise for a string behind its length byte. */
  lemma StrRecordInBuffer(b: seq<bv8>, s: CString)
    requires StrFits(|s|) && |b| >= 3 + |s|
    requires b[1] == INST_V_TYPE_STR && b[2] == |s| as bv8 && b[3..3 + |s|] == s
    ensures ValueBytes(StrValue(s)).Some? && b[1..3 + |s|] == ValueBytes(StrValue(s)).value
  {
    assert b[1..3 + |s|] == [b[1], b[2]] + b[3..3 + |s|];
  }

  /** inst_value_to_bytes, writing into a fresh buffer of its own.  Index 0
      is left for the opcode.  A string is rejected when its length byte and
      characters do not fit (the C test forgets the length byte, see
      StrFitsAsWritten); the buffer is then dropped, as the C code returns
      NULL. */
  method InstValueToBytes(value: InstValue) returns (ok: bool, ret: array<bv8>)
    ensures fresh(ret) && ret.Length == INST_STR_CAP
    ensures ok <==> ValueBytes(value).Some?
    ensures ok ==> ret[1..1 + |ValueBytes(value).value|] == ValueBytes(value).value
  {
    ret := new bv8[INST_STR_CAP];
    var size := 1;
    ret[size] := ValueType(value);
    size := size + 1;
    if value.StrValue? {
      var s := value.str;
      var len := |s|;
      if len + 1 > INST_STR_CAP - size {
        return false, ret;
      }
      ret[size] := len as bv8;
      size := size + 1;
      CopyInto(ret, size, s);
      size := size + len;
      StrRecordInBuffer(ret[..], s);
    } else if !value.NoneValue? {
      CopyInto(ret, size, WordBytes(WordPayload(value)));
      size := size + 8;
      WordRecordInBuffer(ret[..], value);
    }
    ok := true;
  }

  /** inst_to_bytes: the operand's record with the opcode in front.  The C
      code asserts that the operand fit, so a string of 12 or more bytes
      aborts it; here that is `ok == false`. */
  method InstToBytes(inst: Inst) returns (ok: bool, ret: array<bv8>)
    ensures fresh(ret) && ret.Length == INST_STR_CAP
    ensures ok <==> Encode(inst).Some?
    ensures ok ==> ret[..|Encode(inst).value|] == Encode(inst).value
  {
    ok, ret := InstValueToBytes(inst.v);
    if !ok {
      return;
    }
    ret[0] := inst.ty;
    assert ret[..|Encode(inst).value|] == [inst.ty] + ValueBytes(inst.v).value;
  }

  /** inst_value_from_bytes on a NONE record as the C code writes it: it
      reports success and leaves the caller's instruction as it was. */
  function NoneRecordAsWritten(bytes: seq<bv8>, prev: Inst): (r: (int, Inst))
    requires |bytes| >= 2 && bytes[1] == INST_V_TYPE_NONE
    ensures r.0 == Status(Decode(bytes))
    ensures r.1 == Decode(bytes).value <==> prev == Inst(bytes[0], NoneValue)
  {
    (0, prev)
  }

  /** So decoding the record of `push` without an operand, into a variable
      that held `push 7`, reports success and still yields `push 7` instead
      of the operand-less `push`. */
  lemma NoneRecordAsWrittenKeepsStale()
    ensures Encode(InstNew(InstTypeCode(Push), NewVoid())).Some?
    ensures NoneRecordAsWritten(Encode(InstNew(InstTypeCode(Push), NewVoid())).value,
                                InstNew(InstTypeCode(Push), NewU64(7))).0 == 0
    ensures NoneRecordAsWritten(Encode(InstNew(InstTypeCode(Push), NewVoid())).value,
                                InstNew(InstTypeCode(Push), NewU64(7))).1
            != InstNew(InstTypeCode(Push), NewVoid())
  {
  }

  /** The status inst_value_from_bytes returns: 0 on success, 1 for an
      unknown operand type; 2, for a truncated record, has no counterpart
      in the C code, which reads past its input instead. */
  function Status(r: Result<Inst>): (s: int)
    ensures s == 0 <==> r.Ok?
    ensures s == 1 <==> r == Err(UnknownValueType)
  {
    match r
    case Ok(_) => 0
    case Err(UnknownValueType) => 1
    case Err(Truncated) => 2
  }

  /** inst_value_from_bytes: walk the record with a cursor and return the
      status; the instruction comes back in `ret`, which keeps the caller's
      `prev` unless decoding succeeds. */
  method InstValueFromBytes(bytes: array<bv8>, prev: Inst) returns (status: int, ret: Inst)
    ensures status == Status(Decode(bytes[..]))
    ensures status == 0 ==> ret == Decode(bytes[..]).value
    ensures status != 0 ==> ret == prev
  {
    ret := prev;
    ghost var b := bytes[..];
    ghost var d := Decode(b);
    if bytes.Length < 2 {
      assert d == Err(Truncated);
      return 2, ret;
    }
    var idx := 0;
    var ty := bytes[idx];
    idx := idx + 1;
    var vty := bytes[idx];
    idx := idx + 1;
    assert b[0] == ty && b[1] == vty;
    if vty == INST_V_TYPE_NONE {
      ret := InstNew(ty, NewVoid());
      assert d == Ok(ret);
      return 0, ret;
    } else if vty == INST_V_TYPE_STR {
      if bytes.Length < idx + 1 {
        assert d == Err(Truncated);
        return 2, ret;
      }
      var len := bytes[idx] as int;
      assert b[2] as int == len;
      idx := idx + 1;
      if bytes.Length < idx + len {
        assert d == Err(Truncated);
        return 2, ret;
      }
      var str := CopyFrom(bytes, idx, len);
      DecodeStrCase(b);
      assert d == Ok(Inst(ty, NewStr(CStr(str))));
      ret := InstNew(ty, NewStr(CStr(str)));
      return 0, ret;
    } else if vty <= INST_V_TYPE_STR {
      if bytes.Length < idx + 8 {
        assert d == Err(Truncated);
        return 2, ret;
      }
      var f := CopyFrom(bytes, idx, 8);
      DecodeWordCase(b);
      assert d == Ok(Inst(ty, WordValue(vty, WordOf(f))));
      ret := InstNew(ty, WordValue(vty, WordOf(f)));
      return 0, ret;
    }
    assert d == Err(UnknownValueType);
    return 1, ret;
  }

  /** inst_from_bytes: the same as inst_value_from_bytes. */
  method InstFromBytes(bytes: array<bv8>, prev: Inst) returns (status: int, ret: Inst)
    ensures status == Status(Decode(bytes[..]))
    ensures status == 0 ==> ret == Decode(bytes[..]).value
    ensures status != 0 ==> ret == prev
  {
    status, ret := InstValueFromBytes(bytes, prev);
  }
}
