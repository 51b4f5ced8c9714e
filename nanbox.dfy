/** NaN-boxing helpers of the VM: a 64-bit word is carved into an 11-bit
    exponent field (bits 52..62), a 4-bit type tag (bits 48..51), a 48-bit
    payload (bits 0..47) and a sign bit (bit 63).

    Modelling choices:
    - The C helpers pass the word around as a `double` and move between
      `double` and `uint64_t` with casts.  In C those casts are numeric
      conversions; the masks make plain that a reinterpretation of the 64-bit
      pattern is meant, so every such cast is the identity on a `bv64` here.
    - C's `int64_t` and `uint64_t` are both 64-bit patterns, so both are
      `bv64`; an `int64_t` is read as two's complement.  The conversions
      between them are then the identity on the pattern. */
module NanBox {

  const EXP_MASK: bv64 := 0x7FF0_0000_0000_0000
  const TYPE_MASK: bv64 := 0x000F_0000_0000_0000
  const VALUE_MASK: bv64 := 0x0000_FFFF_FFFF_FFFF
  const SIGN_BIT: bv64 := 0x8000_0000_0000_0000

  /** The boxed type tags, numbered as the C enum `Type` numbers them. */
  datatype Type = TypeI64 | TypeU64 | TypeF64 | TypeStr | TypeU8

  function TypeCode(ty: Type): (c: bv64)
    ensures c < 5
  {
    match ty
    case TypeI64 => 0
    case TypeU64 => 1
    case TypeF64 => 2
    case TypeStr => 3
    case TypeU8 => 4
  }

  /** Distinct tags have distinct codes. */
  lemma TypeCodeInjective(a: Type, b: Type)
    ensures TypeCode(a) == TypeCode(b) ==> a == b
  {
  }

  /** The int64_t patterns whose value lies strictly between -2^31 and 2^31:
      0 .. 2^31 - 1 and the two's complement patterns of -1 .. -(2^31 - 1). */
  predicate Fits31(v: bv64)
  {
    v < 0x8000_0000 || v > 0xFFFF_FFFF_8000_0000
  }

  /** The two's complement magnitude of an int64_t pattern. */
  function Magnitude(v: bv64): (m: bv64)
    ensures v & SIGN_BIT == 0 ==> m == v
    ensures v & SIGN_BIT != 0 ==> m + v == 0
  {
    if v & SIGN_BIT != 0 then -v else v
  }

  /** The masks are the C expressions `((1 << 11) - 1) << 52`, `((1 << 4) - 1)
      << 48` and `(1 << 48) - 1`; with the sign bit they partition the word. */
  lemma MasksPartitionWord()
    ensures EXP_MASK & TYPE_MASK == 0 && EXP_MASK & VALUE_MASK == 0 && TYPE_MASK & VALUE_MASK == 0
    ensures SIGN_BIT & (EXP_MASK | TYPE_MASK | VALUE_MASK) == 0
    ensures EXP_MASK | TYPE_MASK | VALUE_MASK | SIGN_BIT == 0xFFFF_FFFF_FFFF_FFFF
    ensures EXP_MASK == ((1 << 11) - 1) << 52 && TYPE_MASK == ((1 << 4) - 1) << 48
    ensures VALUE_MASK == (1 << 48) - 1 && SIGN_BIT == 1 << 63
  {
  }

  /** nan_make_inf: every exponent bit set and nothing else, which is the
      IEEE-754 pattern of positive infinity. */
  function MakeInf(): (r: bv64)
    ensures r & EXP_MASK == EXP_MASK
    ensures r & !EXP_MASK == 0
  {
    EXP_MASK
  }

  /** The 4-bit type field of a word: what nan_get_type reads once its NaN
      test is passed. */
  function TypeField(x: bv64): (t: bv64)
    ensures t < 16
    ensures t << 48 == x & TYPE_MASK
  {
    (x & TYPE_MASK) >> 48
  }

  /** nan_set_type: replace bits 48..51 by the low four bits of the tag and
      leave every other bit alone. */
  function SetType(x: bv64, ty: Type): (r: bv64)
    ensures r & !TYPE_MASK == x & !TYPE_MASK
    ensures TypeField(r) == TypeCode(ty) & 0xF
  {
    (x & !TYPE_MASK) | ((TypeCode(ty) & 0xF) << 48)
  }

  /** The 48-bit payload nan_set_value stores for v, `(uint64_t) abs((int) v)`
      masked to 48 bits: the conversion to `int` keeps the low 32 bits, `abs`
      negates in 32-bit two's complement (abs(INT_MIN) wraps to INT_MIN, the
      usual outcome of that undefined case), and the conversion to
      `uint64_t` sign-extends.  Only magnitudes below 2^31 survive. */
  function Payload(v: bv64): (p: bv64)
    ensures p & !VALUE_MASK == 0
  {
    var low := v & 0xFFFF_FFFF;
    var abs32 := if low & 0x8000_0000 != 0 then -low & 0xFFFF_FFFF else low;
    var wide := if abs32 & 0x8000_0000 != 0 then abs32 | 0xFFFF_FFFF_0000_0000 else abs32;
    wide & VALUE_MASK
  }

  /** A value strictly between -2^31 and 2^31 keeps its magnitude. */
  lemma PayloadFits31(v: bv64)
    requires Fits31(v)
    ensures Payload(v) == Magnitude(v)
  {
    if v < 0x8000_0000 {
      PayloadNonNegative(v);
    } else {
      PayloadNegative(v);
    }
  }

  lemma PayloadNonNegative(v: bv64)
    requires v < 0x8000_0000
    ensures Payload(v) == v
  {
  }

  lemma PayloadNegative(v: bv64)
    requires v > 0xFFFF_FFFF_8000_0000
    ensures Payload(v) == -v
  {
  }

  /** nan_set_value: keep bits 48..63 of x, store the payload of v in bits
      0..47, and force bit 63 when v is zero. */
  function SetValue(x: bv64, v: bv64): (r: bv64)
    ensures r & (EXP_MASK | TYPE_MASK) == x & (EXP_MASK | TYPE_MASK)
    ensures r & VALUE_MASK == Payload(v)
    ensures r & SIGN_BIT == (if v == 0 then SIGN_BIT else x & SIGN_BIT)
  {
    var y: bv64 := if v == 0 then SIGN_BIT else 0;
    (x & !VALUE_MASK) | (Payload(v) & VALUE_MASK) | y
  }

  /** nan_get_value: the 48-bit payload, negated when bit 63 is set. */
  function GetValue(x: bv64): (r: bv64)
    ensures Magnitude(r) == x & VALUE_MASK
    ensures r & SIGN_BIT != 0 <==> x & SIGN_BIT != 0 && x & VALUE_MASK != 0
  {
    var v := x & VALUE_MASK;
    if x & SIGN_BIT != 0 then -v else v
  }

  /** What nan_get_value reads back from nan_set_value, for every v, over a
      word whose sign bit is clear (such as MakeInf()). */
  lemma GetSetValue(x: bv64, v: bv64)
    requires x & SIGN_BIT == 0
    ensures GetValue(SetValue(x, v)) == if v == 0 then 0 else Payload(v)
  {
    var r := SetValue(x, v);
    assert v != 0 ==> r & SIGN_BIT == 0;
  }

  /** Round trip: a value strictly between -2^31 and 2^31 reads back as its
      magnitude, so a negative value loses its sign. */
  lemma SetValueRoundTrip(x: bv64, v: bv64)
    requires x & SIGN_BIT == 0
    requires Fits31(v)
    ensures GetValue(SetValue(x, v)) == Magnitude(v)
    ensures GetValue(SetValue(x, v)) & SIGN_BIT == 0
  {
    GetSetValue(x, v);
    PayloadFits31(v);
  }

  /** Zero is stored with bit 63 set and reads back as -0 == 0. */
  lemma ZeroSetsSignBit(x: bv64)
    ensures SetValue(x, 0) & SIGN_BIT == SIGN_BIT
    ensures SetValue(x, 0) & VALUE_MASK == 0
    ensures GetValue(SetValue(x, 0)) == 0
  {
  }

  /** Only the low 32 bits count, read as a signed int: 2^32 + 5 reads back
      as 5; 2^32 is stored with a zero payload but, being non-zero, without
      bit 63; 2^33 - 1, whose low 32 bits are the int -1, reads back as 1; and
      -2^31 reads back as 2^48 - 2^31. */
  lemma HighBitsDropped()
    ensures GetValue(SetValue(MakeInf(), 0x1_0000_0005)) == 5
    ensures GetValue(SetValue(MakeInf(), 0x1_0000_0000)) == 0
    ensures SetValue(MakeInf(), 0x1_0000_0000) & SIGN_BIT == 0
    ensures GetValue(SetValue(MakeInf(), 0x1_FFFF_FFFF)) == 1
    ensures GetValue(SetValue(MakeInf(), 0xFFFF_FFFF_8000_0000)) == 0xFFFF_8000_0000
  {
    GetSetValue(MakeInf(), 0x1_FFFF_FFFF);
    GetSetValue(MakeInf(), 0x1_0000_0005);
    GetSetValue(MakeInf(), 0x1_0000_0000);
    GetSetValue(MakeInf(), 0xFFFF_FFFF_8000_0000);
  }

  /** The word of a boxed value: exponent all ones, the tag, and the payload
      and sign bit nan_set_value writes into MakeInf(). */
  function Box(v: bv64, ty: Type): (r: bv64)
    ensures r & EXP_MASK == EXP_MASK
    ensures TypeField(r) == TypeCode(ty)
    ensures r & (VALUE_MASK | SIGN_BIT) == SetValue(MakeInf(), v) & (VALUE_MASK | SIGN_BIT)
  {
    SetType(SetValue(MakeInf(), v), ty)
  }

  /** What nan_get_value reads back from a boxed value, whatever the tag. */
  lemma BoxReadsPayload(v: bv64, ty: Type)
    ensures GetValue(Box(v, ty)) == if v == 0 then 0 else Payload(v)
  {
    GetSetValue(MakeInf(), v);
    GetValueReadsPayloadAndSign(Box(v, ty), SetValue(MakeInf(), v));
  }

  /** For a value strictly between -2^31 and 2^31, what a box reads back is
      the magnitude. */
  lemma ReadBackFits31(v: bv64)
    ensures Fits31(v) ==> (if v == 0 then 0 else Payload(v)) == Magnitude(v)
  {
    if Fits31(v) {
      PayloadFits31(v);
    }
  }

  /** A boxed value strictly between -2^31 and 2^31 reads back as its
      magnitude, whatever the tag. */
  lemma BoxRoundTrip(v: bv64, ty: Type)
    requires Fits31(v)
    ensures GetValue(Box(v, ty)) == Magnitude(v)
  {
    BoxReadsPayload(v, ty);
    ReadBackFits31(v);
  }

  /** nan_get_value looks at nothing but the payload and bit 63. */
  lemma GetValueReadsPayloadAndSign(a: bv64, b: bv64)
    requires a & (VALUE_MASK | SIGN_BIT) == b & (VALUE_MASK | SIGN_BIT)
    ensures GetValue(a) == GetValue(b)
  {
    assert a & VALUE_MASK == b & VALUE_MASK;
    assert a & SIGN_BIT == b & SIGN_BIT;
  }

  /** nan_from_i64: box an integer with the Int64 tag. */
  function FromI64(f: bv64): (r: bv64)
    ensures r & EXP_MASK == EXP_MASK && TypeField(r) == TypeCode(TypeI64)
    ensures GetValue(r) == if f == 0 then 0 else Payload(f)
    ensures Fits31(f) ==> GetValue(r) == Magnitude(f)
  {
    BoxReadsPayload(f, TypeI64);
    ReadBackFits31(f);
    Box(f, TypeI64)
  }

  /** nan_from_u64: box an integer with the UInt64 tag. */
  function FromU64(f: bv64): (r: bv64)
    ensures r & EXP_MASK == EXP_MASK && TypeField(r) == TypeCode(TypeU64)
    ensures GetValue(r) == if f == 0 then 0 else Payload(f)
    ensures f < 0x8000_0000 ==> GetValue(r) == f
  {
    BoxReadsPayload(f, TypeU64);
    ReadBackFits31(f);
    Box(f, TypeU64)
  }

  /** nan_from_u8: box a byte with the Byte tag; every byte reads back. */
  function FromU8(f: bv8): (r: bv64)
    ensures r & EXP_MASK == EXP_MASK && TypeField(r) == TypeCode(TypeU8)
    ensures GetValue(r) == f as bv64
  {
    BoxReadsPayload(f as bv64, TypeU8);
    ReadBackFits31(f as bv64);
    Box(f as bv64, TypeU8)
  }

  /** nan_from_str: only the length of the string is boxed, with the Str
      tag; `length` is strlen of the string. */
  function FromStrLength(length: bv64): (r: bv64)
    ensures r & EXP_MASK == EXP_MASK && TypeField(r) == TypeCode(TypeStr)
    ensures GetValue(r) == if length == 0 then 0 else Payload(length)
    ensures length < 0x8000_0000 ==> GetValue(r) == length
  {
    BoxReadsPayload(length, TypeStr);
    ReadBackFits31(length);
    Box(length, TypeStr)
  }
}
