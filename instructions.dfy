/** Instructions of the VM: an opcode paired with an operand value, the
    operand being a tagged union over the kinds of immediate an instruction
    can carry. */
module Instructions {

  /** The opcodes, in the order of the C enum `Inst_Type` (push = 0 through
      halt = 26). */
  datatype InstType =
    | Push | Pop
    | Fadd | Fdiv | Fsub | Fmul
    | Iadd | Idiv | Isub | Imul
    | Inc | Dec
    | Jmp | Je | Jne | Jg | Jl | Jle | Jge
    | Swap | Dup
    | Cmp | Dmp | Nop | Label | Native | Halt

  /** The enum value of an opcode, which inst_type_to_bytes writes as a byte. */
  function InstTypeCode(t: InstType): (c: bv8)
    ensures c < 27
  {
    match t
    case Push => 0   case Pop => 1
    case Fadd => 2   case Fdiv => 3   case Fsub => 4   case Fmul => 5
    case Iadd => 6   case Idiv => 7   case Isub => 8   case Imul => 9
    case Inc => 10   case Dec => 11
    case Jmp => 12   case Je => 13    case Jne => 14   case Jg => 15
    case Jl => 16    case Jle => 17   case Jge => 18
    case Swap => 19  case Dup => 20
    case Cmp => 21   case Dmp => 22   case Nop => 23   case Label => 24
    case Native => 25  case Halt => 26
  }

  /** Distinct opcodes have distinct codes. */
  lemma InstTypeCodeInjective(a: InstType, b: InstType)
    ensures InstTypeCode(a) == InstTypeCode(b) ==> a == b
  {
  }

  /** The content of a C string: the bytes before its terminating NUL. */
  type CString = s: seq<bv8> | forall i | 0 <= i < |s| :: s[i] != 0

  /** Inst_Value: the tag is the constructor, the payload its field.  Doubles
      and NaN-boxed values are kept as their 64-bit patterns, int64_t and
      uint64_t as theirs; a string operand is kept by its content. */
  datatype InstValue =
    | NanValue(nan: bv64)
    | NoneValue
    | I64Value(i64: bv64)
    | U64Value(u64: bv64)
    | F64Value(f64: bv64)
    | StrValue(str: CString)

  const INST_V_TYPE_NAN: bv8 := 0
  const INST_V_TYPE_NONE: bv8 := 1
  const INST_V_TYPE_I64: bv8 := 2
  const INST_V_TYPE_U64: bv8 := 3
  const INST_V_TYPE_F64: bv8 := 4
  const INST_V_TYPE_STR: bv8 := 5

  /** The Inst_Value_Type of an operand. */
  function ValueType(v: InstValue): (t: bv8)
    ensures t <= INST_V_TYPE_STR
    ensures v.NanValue? <==> t == INST_V_TYPE_NAN
    ensures v.NoneValue? <==> t == INST_V_TYPE_NONE
    ensures v.I64Value? <==> t == INST_V_TYPE_I64
    ensures v.U64Value? <==> t == INST_V_TYPE_U64
    ensures v.F64Value? <==> t == INST_V_TYPE_F64
    ensures v.StrValue? <==> t == INST_V_TYPE_STR
  {
    match v
    case NanValue(_) => INST_V_TYPE_NAN
    case NoneValue => INST_V_TYPE_NONE
    case I64Value(_) => INST_V_TYPE_I64
    case U64Value(_) => INST_V_TYPE_U64
    case F64Value(_) => INST_V_TYPE_F64
    case StrValue(_) => INST_V_TYPE_STR
  }

  /** Inst.  The opcode is kept as the byte of its enum value: the decoder
      casts any byte to Inst_Type without checking it. */
  datatype Inst = Inst(ty: bv8, v: InstValue)

  /** inst_new, on the opcode's byte: a caller holding an InstType passes
      InstTypeCode of it, the decoder passes the byte it read. */
  function InstNew(ty: bv8, v: InstValue): (r: Inst)
    ensures r.ty == ty && r.v == v
  {
    Inst(ty, v)
  }

  /** inst_value_new_u64 */
  function NewU64(v: bv64): (r: InstValue)
    ensures ValueType(r) == INST_V_TYPE_U64 && r.u64 == v
  {
    U64Value(v)
  }

  /** inst_value_new_f64: the double is kept as its bit pattern. */
  function NewF64(v: bv64): (r: InstValue)
    ensures ValueType(r) == INST_V_TYPE_F64 && r.f64 == v
  {
    F64Value(v)
  }

  /** inst_value_new_void */
  function NewVoid(): (r: InstValue)
    ensures ValueType(r) == INST_V_TYPE_NONE
  {
    NoneValue
  }

  /** inst_value_new_nan */
  function NewNan(nan: bv64): (r: InstValue)
    ensures ValueType(r) == INST_V_TYPE_NAN && r.nan == nan
  {
    NanValue(nan)
  }

  /** inst_value_new_str: the string is kept by its content. */
  function NewStr(s: CString): (r: InstValue)
    ensures ValueType(r) == INST_V_TYPE_STR && r.str == s
  {
    StrValue(s)
  }

  /** inst_value_new_i64 */
  function NewI64(v: bv64): (r: InstValue)
    ensures ValueType(r) == INST_V_TYPE_I64 && r.i64 == v
  {
    I64Value(v)
  }
}
