/** The opcode tables of the binary encoder: the byte each operation descriptor
    (operation, type, byte width, signedness, atomicity) is written as. Values
    are those of the WebAssembly Core Specification 1.0 (section 5.3.2 for block
    types, 5.4.1 control, 5.4.2 parametric, 5.4.3 variable, 5.4.4 memory and
    5.4.5 numeric instructions), of the threads proposal for the operations
    behind the 0xFE prefix, and of the sign-extension-operators proposal for
    the `extendN_s` unaries. Each table comes with a decoder and the round trip
    that shows the table is one-to-one. */
module Opcodes {
  import opened Wasm

  // Control instructions
  const UNREACHABLE: byte := 0x00
  const NOP: byte := 0x01
  const BLOCK: byte := 0x02
  const LOOP: byte := 0x03
  const IF: byte := 0x04
  const ELSE: byte := 0x05
  const END: byte := 0x0B
  const BR: byte := 0x0C
  const BR_IF: byte := 0x0D
  const BR_TABLE: byte := 0x0E
  const RETURN: byte := 0x0F
  const CALL: byte := 0x10
  const CALL_INDIRECT: byte := 0x11

  // Parametric and variable instructions
  const DROP: byte := 0x1A
  const SELECT: byte := 0x1B
  const LOCAL_GET: byte := 0x20
  const LOCAL_SET: byte := 0x21
  const LOCAL_TEE: byte := 0x22
  const GLOBAL_GET: byte := 0x23
  const GLOBAL_SET: byte := 0x24

  // Memory size and growth; numeric constants
  const MEMORY_SIZE: byte := 0x3F
  const MEMORY_GROW: byte := 0x40
  const I32_CONST: byte := 0x41
  const I64_CONST: byte := 0x42
  const F32_CONST: byte := 0x43
  const F64_CONST: byte := 0x44

  // Threads proposal: the prefix byte and the opcodes with no width variants
  const ATOMIC_PREFIX: byte := 0xFE
  const ATOMIC_WAKE: byte := 0x00
  const I32_ATOMIC_WAIT: byte := 0x01
  const I64_ATOMIC_WAIT: byte := 0x02

  /** The opcodes that open or close a structured construct or carry a label
      depth. No opcode of the tables below is one of them. */
  predicate IsStructural(b: byte)
  {
    b == BLOCK || b == LOOP || b == IF || b == ELSE || b == END || b == BR || b == BR_IF || b == BR_TABLE
  }

  /** The block-type byte (section 5.3.2): a value type, or 0x40 for none. */
  function BlockTypeByte(t: Type): (b: byte)
    requires t != unreachable
    ensures b == 0x40 <==> t == none
    ensures b == 0x40 || b >= 0x7C
  {
    match t
    case none => 0x40
    case i32 => 0x7F
    case i64 => 0x7E
    case f32 => 0x7D
    case f64 => 0x7C
  }

  // ---------------------------------------------------------------------------
  // Unary operations

  function UnaryOpcode(op: UnaryOp): (b: byte)
    ensures 0x45 <= b <= 0xC4
  {
    match op
    case EqZInt32 => 0x45               // i32.eqz
    case EqZInt64 => 0x50               // i64.eqz
    case ClzInt32 => 0x67               // i32.clz
    case CtzInt32 => 0x68
    case PopcntInt32 => 0x69
    case ClzInt64 => 0x79               // i64.clz
    case CtzInt64 => 0x7A
    case PopcntInt64 => 0x7B
    case AbsFloat32 => 0x8B             // f32.abs
    case NegFloat32 => 0x8C
    case CeilFloat32 => 0x8D
    case FloorFloat32 => 0x8E
    case TruncFloat32 => 0x8F
    case NearestFloat32 => 0x90
    case SqrtFloat32 => 0x91
    case AbsFloat64 => 0x99             // f64.abs
    case NegFloat64 => 0x9A
    case CeilFloat64 => 0x9B
    case FloorFloat64 => 0x9C
    case TruncFloat64 => 0x9D
    case NearestFloat64 => 0x9E
    case SqrtFloat64 => 0x9F
    case WrapInt64 => 0xA7              // i32.wrap_i64
    case TruncSFloat32ToInt32 => 0xA8   // i32.trunc_f32_s
    case TruncUFloat32ToInt32 => 0xA9
    case TruncSFloat64ToInt32 => 0xAA
    case TruncUFloat64ToInt32 => 0xAB
    case ExtendSInt32 => 0xAC           // i64.extend_i32_s
    case ExtendUInt32 => 0xAD
    case TruncSFloat32ToInt64 => 0xAE   // i64.trunc_f32_s
    case TruncUFloat32ToInt64 => 0xAF
    case TruncSFloat64ToInt64 => 0xB0
    case TruncUFloat64ToInt64 => 0xB1
    case ConvertSInt32ToFloat32 => 0xB2 // f32.convert_i32_s
    case ConvertUInt32ToFloat32 => 0xB3
    case ConvertSInt64ToFloat32 => 0xB4
    case ConvertUInt64ToFloat32 => 0xB5
    case DemoteFloat64 => 0xB6          // f32.demote_f64
    case ConvertSInt32ToFloat64 => 0xB7 // f64.convert_i32_s
    case ConvertUInt32ToFloat64 => 0xB8
    case ConvertSInt64ToFloat64 => 0xB9
    case ConvertUInt64ToFloat64 => 0xBA
    case PromoteFloat32 => 0xBB         // f64.promote_f32
    case ReinterpretFloat32 => 0xBC     // i32.reinterpret_f32
    case ReinterpretFloat64 => 0xBD     // i64.reinterpret_f64
    case ReinterpretInt32 => 0xBE       // f32.reinterpret_i32
    case ReinterpretInt64 => 0xBF       // f64.reinterpret_i64
    case ExtendS8Int32 => 0xC0          // i32.extend8_s
    case ExtendS16Int32 => 0xC1
    case ExtendS8Int64 => 0xC2          // i64.extend8_s
    case ExtendS16Int64 => 0xC3
    case ExtendS32Int64 => 0xC4
  }

  /** The operation a byte of the unary table stands for, one run of
      consecutive opcodes at a time. */
  function DecodeUnary(b: byte): Option<UnaryOp>
  {
    if 0x45 <= b < 0x46 then
      match b
      case 0x45 => Some(EqZInt32)
      case _ => None
    else if 0x50 <= b < 0x51 then
      match b
      case 0x50 => Some(EqZInt64)
      case _ => None
    else if 0x67 <= b < 0x6A then
      match b
      case 0x67 => Some(ClzInt32)
      case 0x68 => Some(CtzInt32)
      case 0x69 => Some(PopcntInt32)
      case _ => None
    else if 0x79 <= b < 0x7C then
      match b
      case 0x79 => Some(ClzInt64)
      case 0x7A => Some(CtzInt64)
      case 0x7B => Some(PopcntInt64)
      case _ => None
    else if 0x8B <= b < 0x92 then
      match b
      case 0x8B => Some(AbsFloat32)
      case 0x8C => Some(NegFloat32)
      case 0x8D => Some(CeilFloat32)
      case 0x8E => Some(FloorFloat32)
      case 0x8F => Some(TruncFloat32)
      case 0x90 => Some(NearestFloat32)
      case 0x91 => Some(SqrtFloat32)
      case _ => None
    else if 0x99 <= b < 0xA0 then
      match b
      case 0x99 => Some(AbsFloat64)
      case 0x9A => Some(NegFloat64)
      case 0x9B => Some(CeilFloat64)
      case 0x9C => Some(FloorFloat64)
      case 0x9D => Some(TruncFloat64)
      case 0x9E => Some(NearestFloat64)
      case 0x9F => Some(SqrtFloat64)
      case _ => None
    else if 0xA7 <= b < 0xBC then
      match b
      case 0xA7 => Some(WrapInt64)
      case 0xA8 => Some(TruncSFloat32ToInt32)
      case 0xA9 => Some(TruncUFloat32ToInt32)
      case 0xAA => Some(TruncSFloat64ToInt32)
      case 0xAB => Some(TruncUFloat64ToInt32)
      case 0xAC => Some(ExtendSInt32)
      case 0xAD => Some(ExtendUInt32)
      case 0xAE => Some(TruncSFloat32ToInt64)
      case 0xAF => Some(TruncUFloat32ToInt64)
      case 0xB0 => Some(TruncSFloat64ToInt64)
      case 0xB1 => Some(TruncUFloat64ToInt64)
      case 0xB2 => Some(ConvertSInt32ToFloat32)
      case 0xB3 => Some(ConvertUInt32ToFloat32)
      case 0xB4 => Some(ConvertSInt64ToFloat32)
      case 0xB5 => Some(ConvertUInt64ToFloat32)
      case 0xB6 => Some(DemoteFloat64)
      case 0xB7 => Some(ConvertSInt32ToFloat64)
      case 0xB8 => Some(ConvertUInt32ToFloat64)
      case 0xB9 => Some(ConvertSInt64ToFloat64)
      case 0xBA => Some(ConvertUInt64ToFloat64)
      case 0xBB => Some(PromoteFloat32)
      case _ => None
    else if 0xBC <= b < 0xC0 then
      match b
      case 0xBC => Some(ReinterpretFloat32)
      case 0xBD => Some(ReinterpretFloat64)
      case 0xBE => Some(ReinterpretInt32)
      case 0xBF => Some(ReinterpretInt64)
      case _ => None
    else if 0xC0 <= b < 0xC5 then
      match b
      case 0xC0 => Some(ExtendS8Int32)
      case 0xC1 => Some(ExtendS16Int32)
      case 0xC2 => Some(ExtendS8Int64)
      case 0xC3 => Some(ExtendS16Int64)
      case 0xC4 => Some(ExtendS32Int64)
      case _ => None
    else None
  }

  /** The unary table is one-to-one: its byte determines the operation. */
  lemma UnaryRoundTrip(op: UnaryOp)
    ensures DecodeUnary(UnaryOpcode(op)) == Some(op)
  {
    match op
    case EqZInt32 | EqZInt64 | ClzInt32 | CtzInt32 | PopcntInt32 | ClzInt64 | CtzInt64 | PopcntInt64 =>
      IntegerUnaryRoundTrip(op);
    case AbsFloat32 | NegFloat32 | CeilFloat32 | FloorFloat32 | TruncFloat32 | NearestFloat32 | SqrtFloat32
       | AbsFloat64 | NegFloat64 | CeilFloat64 | FloorFloat64 | TruncFloat64 | NearestFloat64 | SqrtFloat64 =>
      FloatUnaryRoundTrip(op);
    case WrapInt64 | TruncSFloat32ToInt32 | TruncUFloat32ToInt32 | TruncSFloat64ToInt32 | TruncUFloat64ToInt32
       | ExtendSInt32 | ExtendUInt32 | TruncSFloat32ToInt64 | TruncUFloat32ToInt64 | TruncSFloat64ToInt64
       | TruncUFloat64ToInt64 | ConvertSInt32ToFloat32 | ConvertUInt32ToFloat32 | ConvertSInt64ToFloat32
       | ConvertUInt64ToFloat32 | DemoteFloat64 | ConvertSInt32ToFloat64 | ConvertUInt32ToFloat64
       | ConvertSInt64ToFloat64 | ConvertUInt64ToFloat64 | PromoteFloat32 =>
      ConversionRoundTrip(op);
    case ReinterpretFloat32 | ReinterpretFloat64 | ReinterpretInt32 | ReinterpretInt64 | ExtendS8Int32
       | ExtendS16Int32 | ExtendS8Int64 | ExtendS16Int64 | ExtendS32Int64 =>
      ReinterpretExtendRoundTrip(op);
  }

  /** i32.eqz, i64.eqz and the bit counts. */
  lemma IntegerUnaryRoundTrip(op: UnaryOp)
    requires op in {EqZInt32, EqZInt64, ClzInt32, CtzInt32, PopcntInt32, ClzInt64, CtzInt64, PopcntInt64}
    ensures DecodeUnary(UnaryOpcode(op)) == Some(op)
  {
  }

  /** f32.abs .. f32.sqrt and f64.abs .. f64.sqrt. */
  lemma FloatUnaryRoundTrip(op: UnaryOp)
    requires op in {AbsFloat32, NegFloat32, CeilFloat32, FloorFloat32, TruncFloat32, NearestFloat32,
                     SqrtFloat32, AbsFloat64, NegFloat64, CeilFloat64, FloorFloat64, TruncFloat64,
                     NearestFloat64, SqrtFloat64}
    ensures DecodeUnary(UnaryOpcode(op)) == Some(op)
  {
  }

  /** i32.wrap_i64 .. f64.promote_f32. */
  lemma ConversionRoundTrip(op: UnaryOp)
    requires op in {WrapInt64, TruncSFloat32ToInt32, TruncUFloat32ToInt32, TruncSFloat64ToInt32,
                     TruncUFloat64ToInt32, ExtendSInt32, ExtendUInt32, TruncSFloat32ToInt64,
                     TruncUFloat32ToInt64, TruncSFloat64ToInt64, TruncUFloat64ToInt64, ConvertSInt32ToFloat32,
                     ConvertUInt32ToFloat32, ConvertSInt64ToFloat32, ConvertUInt64ToFloat32, DemoteFloat64,
                     ConvertSInt32ToFloat64, ConvertUInt32ToFloat64, ConvertSInt64ToFloat64,
                     ConvertUInt64ToFloat64, PromoteFloat32}
    ensures DecodeUnary(UnaryOpcode(op)) == Some(op)
  {
  }

  /** The reinterpretations and the sign extensions. */
  lemma ReinterpretExtendRoundTrip(op: UnaryOp)
    requires op in {ReinterpretFloat32, ReinterpretFloat64, ReinterpretInt32, ReinterpretInt64, ExtendS8Int32,
                     ExtendS16Int32, ExtendS8Int64, ExtendS16Int64, ExtendS32Int64}
    ensures DecodeUnary(UnaryOpcode(op)) == Some(op)
  {
  }

  // ---------------------------------------------------------------------------
  // Binary operations

  function BinaryOpcode(op: BinaryOp): (b: byte)
    ensures 0x46 <= b <= 0xA6
  {
    match op
    case EqInt32 => 0x46      // i32.eq
    case NeInt32 => 0x47
    case LtSInt32 => 0x48
    case LtUInt32 => 0x49
    case GtSInt32 => 0x4A
    case GtUInt32 => 0x4B
    case LeSInt32 => 0x4C
    case LeUInt32 => 0x4D
    case GeSInt32 => 0x4E
    case GeUInt32 => 0x4F
    case EqInt64 => 0x51      // i64.eq
    case NeInt64 => 0x52
    case LtSInt64 => 0x53
    case LtUInt64 => 0x54
    case GtSInt64 => 0x55
    case GtUInt64 => 0x56
    case LeSInt64 => 0x57
    case LeUInt64 => 0x58
    case GeSInt64 => 0x59
    case GeUInt64 => 0x5A
    case EqFloat32 => 0x5B    // f32.eq
    case NeFloat32 => 0x5C
    case LtFloat32 => 0x5D
    case GtFloat32 => 0x5E
    case LeFloat32 => 0x5F
    case GeFloat32 => 0x60
    case EqFloat64 => 0x61    // f64.eq
    case NeFloat64 => 0x62
    case LtFloat64 => 0x63
    case GtFloat64 => 0x64
    case LeFloat64 => 0x65
    case GeFloat64 => 0x66
    case AddInt32 => 0x6A     // i32.add
    case SubInt32 => 0x6B
    case MulInt32 => 0x6C
    case DivSInt32 => 0x6D
    case DivUInt32 => 0x6E
    case RemSInt32 => 0x6F
    case RemUInt32 => 0x70
    case AndInt32 => 0x71
    case OrInt32 => 0x72
    case XorInt32 => 0x73
    case ShlInt32 => 0x74
    case ShrSInt32 => 0x75
    case ShrUInt32 => 0x76
    case RotLInt32 => 0x77
    case RotRInt32 => 0x78
    case AddInt64 => 0x7C     // i64.add
    case SubInt64 => 0x7D
    case MulInt64 => 0x7E
    case DivSInt64 => 0x7F
    case DivUInt64 => 0x80
    case RemSInt64 => 0x81
    case RemUInt64 => 0x82
    case AndInt64 => 0x83
    case OrInt64 => 0x84
    case XorInt64 => 0x85
    case ShlInt64 => 0x86
    case ShrSInt64 => 0x87
    case ShrUInt64 => 0x88
    case RotLInt64 => 0x89
    case RotRInt64 => 0x8A
    case AddFloat32 => 0x92   // f32.add
    case SubFloat32 => 0x93
    case MulFloat32 => 0x94
    case DivFloat32 => 0x95
    case MinFloat32 => 0x96
    case MaxFloat32 => 0x97
    case CopySignFloat32 => 0x98
    case AddFloat64 => 0xA0   // f64.add
    case SubFloat64 => 0xA1
    case MulFloat64 => 0xA2
    case DivFloat64 => 0xA3
    case MinFloat64 => 0xA4
    case MaxFloat64 => 0xA5
    case CopySignFloat64 => 0xA6
  }

  /** The operation a byte of the binary table stands for, read off the
      table of section 5.4.5 of the WebAssembly Core Specification, one run
      of consecutive opcodes at a time. */
  function DecodeBinary(b: byte): Option<BinaryOp>
  {
    if 0x46 <= b < 0x50 then
      match b
      case 0x46 => Some(EqInt32)
      case 0x47 => Some(NeInt32)
      case 0x48 => Some(LtSInt32)
      case 0x49 => Some(LtUInt32)
      case 0x4A => Some(GtSInt32)
      case 0x4B => Some(GtUInt32)
      case 0x4C => Some(LeSInt32)
      case 0x4D => Some(LeUInt32)
      case 0x4E => Some(GeSInt32)
      case 0x4F => Some(GeUInt32)
      case _ => None
    else if 0x51 <= b < 0x5B then
      match b
      case 0x51 => Some(EqInt64)
      case 0x52 => Some(NeInt64)
      case 0x53 => Some(LtSInt64)
      case 0x54 => Some(LtUInt64)
      case 0x55 => Some(GtSInt64)
      case 0x56 => Some(GtUInt64)
      case 0x57 => Some(LeSInt64)
      case 0x58 => Some(LeUInt64)
      case 0x59 => Some(GeSInt64)
      case 0x5A => Some(GeUInt64)
      case _ => None
    else if 0x5B <= b < 0x61 then
      match b
      case 0x5B => Some(EqFloat32)
      case 0x5C => Some(NeFloat32)
      case 0x5D => Some(LtFloat32)
      case 0x5E => Some(GtFloat32)
      case 0x5F => Some(LeFloat32)
      case 0x60 => Some(GeFloat32)
      case _ => None
    else if 0x61 <= b < 0x67 then
      match b
      case 0x61 => Some(EqFloat64)
      case 0x62 => Some(NeFloat64)
      case 0x63 => Some(LtFloat64)
      case 0x64 => Some(GtFloat64)
      case 0x65 => Some(LeFloat64)
      case 0x66 => Some(GeFloat64)
      case _ => None
    else if 0x6A <= b < 0x79 then
      match b
      case 0x6A => Some(AddInt32)
      case 0x6B => Some(SubInt32)
      case 0x6C => Some(MulInt32)
      case 0x6D => Some(DivSInt32)
      case 0x6E => Some(DivUInt32)
      case 0x6F => Some(RemSInt32)
      case 0x70 => Some(RemUInt32)
      case 0x71 => Some(AndInt32)
      case 0x72 => Some(OrInt32)
      case 0x73 => Some(XorInt32)
      case 0x74 => Some(ShlInt32)
      case 0x75 => Some(ShrSInt32)
      case 0x76 => Some(ShrUInt32)
      case 0x77 => Some(RotLInt32)
      case 0x78 => Some(RotRInt32)
      case _ => None
    else if 0x7C <= b < 0x8B then
      match b
      case 0x7C => Some(AddInt64)
      case 0x7D => Some(SubInt64)
      case 0x7E => Some(MulInt64)
      case 0x7F => Some(DivSInt64)
      case 0x80 => Some(DivUInt64)
      case 0x81 => Some(RemSInt64)
      case 0x82 => Some(RemUInt64)
      case 0x83 => Some(AndInt64)
      case 0x84 => Some(OrInt64)
      case 0x85 => Some(XorInt64)
      case 0x86 => Some(ShlInt64)
      case 0x87 => Some(ShrSInt64)
      case 0x88 => Some(ShrUInt64)
      case 0x89 => Some(RotLInt64)
      case 0x8A => Some(RotRInt64)
      case _ => None
    else if 0x92 <= b < 0x99 then
      match b
      case 0x92 => Some(AddFloat32)
      case 0x93 => Some(SubFloat32)
      case 0x94 => Some(MulFloat32)
      case 0x95 => Some(DivFloat32)
      case 0x96 => Some(MinFloat32)
      case 0x97 => Some(MaxFloat32)
      case 0x98 => Some(CopySignFloat32)
      case _ => None
    else if 0xA0 <= b < 0xA7 then
      match b
      case 0xA0 => Some(AddFloat64)
      case 0xA1 => Some(SubFloat64)
      case 0xA2 => Some(MulFloat64)
      case 0xA3 => Some(DivFloat64)
      case 0xA4 => Some(MinFloat64)
      case 0xA5 => Some(MaxFloat64)
      case 0xA6 => Some(CopySignFloat64)
      case _ => None
    else None
  }

  /** The binary table is one-to-one: its byte determines the operation. */
  lemma BinaryRoundTrip(op: BinaryOp)
    ensures DecodeBinary(BinaryOpcode(op)) == Some(op)
  {
    match op
    case EqInt32 | NeInt32 | LtSInt32 | LtUInt32 | GtSInt32 | GtUInt32 | LeSInt32 | LeUInt32 | GeSInt32 | GeUInt32 =>
      I32CompareRoundTrip(op);
    case EqInt64 | NeInt64 | LtSInt64 | LtUInt64 | GtSInt64 | GtUInt64 | LeSInt64 | LeUInt64 | GeSInt64 | GeUInt64 =>
      I64CompareRoundTrip(op);
    case EqFloat32 | NeFloat32 | LtFloat32 | GtFloat32 | LeFloat32 | GeFloat32 =>
      F32CompareRoundTrip(op);
    case EqFloat64 | NeFloat64 | LtFloat64 | GtFloat64 | LeFloat64 | GeFloat64 =>
      F64CompareRoundTrip(op);
    case AddInt32 | SubInt32 | MulInt32 | DivSInt32 | DivUInt32 | RemSInt32 | RemUInt32 | AndInt32 | OrInt32
       | XorInt32 | ShlInt32 | ShrSInt32 | ShrUInt32 | RotLInt32 | RotRInt32 =>
      I32ArithmeticRoundTrip(op);
    case AddInt64 | SubInt64 | MulInt64 | DivSInt64 | DivUInt64 | RemSInt64 | RemUInt64 | AndInt64 | OrInt64
       | XorInt64 | ShlInt64 | ShrSInt64 | ShrUInt64 | RotLInt64 | RotRInt64 =>
      I64ArithmeticRoundTrip(op);
    case AddFloat32 | SubFloat32 | MulFloat32 | DivFloat32 | MinFloat32 | MaxFloat32 | CopySignFloat32 =>
      F32ArithmeticRoundTrip(op);
    case AddFloat64 | SubFloat64 | MulFloat64 | DivFloat64 | MinFloat64 | MaxFloat64 | CopySignFloat64 =>
      F64ArithmeticRoundTrip(op);
  }

  /** i32.eq .. i32.ge_u */
  lemma I32CompareRoundTrip(op: BinaryOp)
    requires op in {EqInt32, NeInt32, LtSInt32, LtUInt32, GtSInt32, GtUInt32, LeSInt32, LeUInt32, GeSInt32, GeUInt32}
    ensures DecodeBinary(BinaryOpcode(op)) == Some(op)
  {
  }

  /** i64.eq .. i64.ge_u */
  lemma I64CompareRoundTrip(op: BinaryOp)
    requires op in {EqInt64, NeInt64, LtSInt64, LtUInt64, GtSInt64, GtUInt64, LeSInt64, LeUInt64, GeSInt64, GeUInt64}
    ensures DecodeBinary(BinaryOpcode(op)) == Some(op)
  {
  }

  /** f32.eq .. f32.ge */
  lemma F32CompareRoundTrip(op: BinaryOp)
    requires op in {EqFloat32, NeFloat32, LtFloat32, GtFloat32, LeFloat32, GeFloat32}
    ensures DecodeBinary(BinaryOpcode(op)) == Some(op)
  {
  }

  /** f64.eq .. f64.ge */
  lemma F64CompareRoundTrip(op: BinaryOp)
    requires op in {EqFloat64, NeFloat64, LtFloat64, GtFloat64, LeFloat64, GeFloat64}
    ensures DecodeBinary(BinaryOpcode(op)) == Some(op)
  {
  }

  /** i32.add .. i32.rotr */
  lemma I32ArithmeticRoundTrip(op: BinaryOp)
    requires op in {AddInt32, SubInt32, MulInt32, DivSInt32, DivUInt32, RemSInt32, RemUInt32, AndInt32, OrInt32,
                 XorInt32, ShlInt32, ShrSInt32, ShrUInt32, RotLInt32, RotRInt32}
    ensures DecodeBinary(BinaryOpcode(op)) == Some(op)
  {
  }

  /** i64.add .. i64.rotr */
  lemma I64ArithmeticRoundTrip(op: BinaryOp)
    requires op in {AddInt64, SubInt64, MulInt64, DivSInt64, DivUInt64, RemSInt64, RemUInt64, AndInt64, OrInt64,
                 XorInt64, ShlInt64, ShrSInt64, ShrUInt64, RotLInt64, RotRInt64}
    ensures DecodeBinary(BinaryOpcode(op)) == Some(op)
  {
  }

  /** f32.add .. f32.copysign */
  lemma F32ArithmeticRoundTrip(op: BinaryOp)
    requires op in {AddFloat32, SubFloat32, MulFloat32, DivFloat32, MinFloat32, MaxFloat32, CopySignFloat32}
    ensures DecodeBinary(BinaryOpcode(op)) == Some(op)
  {
  }

  /** f64.add .. f64.copysign */
  lemma F64ArithmeticRoundTrip(op: BinaryOp)
    requires op in {AddFloat64, SubFloat64, MulFloat64, DivFloat64, MinFloat64, MaxFloat64, CopySignFloat64}
    ensures DecodeBinary(BinaryOpcode(op)) == Some(op)
  {
  }

  // ---------------------------------------------------------------------------
  // Plain loads and stores

  /** The (type, width) pairs a plain load has an opcode for; a float load is
      chosen by its type alone. */
  predicate ValidLoad(ty: Type, bytes: nat)
  {
    (ty == i32 && (bytes == 1 || bytes == 2 || bytes == 4))
    || (ty == i64 && (bytes == 1 || bytes == 2 || bytes == 4 || bytes == 8))
    || ty == f32 || ty == f64
  }

  function LoadOpcode(ty: Type, bytes: nat, signed: bool): (b: byte)
    requires ValidLoad(ty, bytes)
    ensures 0x28 <= b <= 0x35
  {
    match ty
    case i32 =>
      if bytes == 1 then (if signed then 0x2C else 0x2D)        // i32.load8_s / _u
      else if bytes == 2 then (if signed then 0x2E else 0x2F)   // i32.load16_s / _u
      else 0x28                                                 // i32.load
    case i64 =>
      if bytes == 1 then (if signed then 0x30 else 0x31)        // i64.load8_s / _u
      else if bytes == 2 then (if signed then 0x32 else 0x33)   // i64.load16_s / _u
      else if bytes == 4 then (if signed then 0x34 else 0x35)   // i64.load32_s / _u
      else 0x29                                                 // i64.load
    case f32 => 0x2A
    case f64 => 0x2B
  }

  /** What a load opcode says: the result type, the width read from memory,
      and whether a narrow read is sign-extended. */
  datatype LoadKind = LoadKind(ty: Type, bytes: nat, signed: bool)

  function DecodeLoad(b: byte): Option<LoadKind>
  {
    match b
    case 0x28 => Some(LoadKind(i32, 4, false))
    case 0x29 => Some(LoadKind(i64, 8, false))
    case 0x2A => Some(LoadKind(f32, 4, false))
    case 0x2B => Some(LoadKind(f64, 8, false))
    case 0x2C => Some(LoadKind(i32, 1, true))
    case 0x2D => Some(LoadKind(i32, 1, false))
    case 0x2E => Some(LoadKind(i32, 2, true))
    case 0x2F => Some(LoadKind(i32, 2, false))
    case 0x30 => Some(LoadKind(i64, 1, true))
    case 0x31 => Some(LoadKind(i64, 1, false))
    case 0x32 => Some(LoadKind(i64, 2, true))
    case 0x33 => Some(LoadKind(i64, 2, false))
    case 0x34 => Some(LoadKind(i64, 4, true))
    case 0x35 => Some(LoadKind(i64, 4, false))
    case _ => None
  }

  /** Decoding a load opcode gives back its type, its width for integer loads,
      and its signedness whenever the read is narrower than the type. */
  lemma LoadRoundTrip(ty: Type, bytes: nat, signed: bool)
    requires ValidLoad(ty, bytes)
    ensures DecodeLoad(LoadOpcode(ty, bytes, signed)).Some?
    ensures DecodeLoad(LoadOpcode(ty, bytes, signed)).value.ty == ty
    ensures IsInteger(ty) ==> DecodeLoad(LoadOpcode(ty, bytes, signed)).value.bytes == bytes
    ensures (ty == i32 && bytes < 4) || (ty == i64 && bytes < 8) ==>
              DecodeLoad(LoadOpcode(ty, bytes, signed)).value.signed == signed
  {
  }

  predicate ValidStore(ty: Type, bytes: nat)
  {
    (ty == i32 && (bytes == 1 || bytes == 2 || bytes == 4))
    || (ty == i64 && (bytes == 1 || bytes == 2 || bytes == 4 || bytes == 8))
    || ty == f32 || ty == f64
  }

  function StoreOpcode(ty: Type, bytes: nat): (b: byte)
    requires ValidStore(ty, bytes)
    ensures 0x36 <= b <= 0x3E
  {
    match ty
    case i32 => if bytes == 1 then 0x3A else if bytes == 2 then 0x3B else 0x36    // i32.store8/16, i32.store
    case i64 => if bytes == 1 then 0x3C else if bytes == 2 then 0x3D               // i64.store8/16
                else if bytes == 4 then 0x3E else 0x37                             // i64.store32, i64.store
    case f32 => 0x38
    case f64 => 0x39
  }

  function DecodeStore(b: byte): Option<(Type, nat)>
  {
    match b
    case 0x36 => Some((i32, 4))
    case 0x37 => Some((i64, 8))
    case 0x38 => Some((f32, 4))
    case 0x39 => Some((f64, 8))
    case 0x3A => Some((i32, 1))
    case 0x3B => Some((i32, 2))
    case 0x3C => Some((i64, 1))
    case 0x3D => Some((i64, 2))
    case 0x3E => Some((i64, 4))
    case _ => None
  }

  lemma StoreRoundTrip(ty: Type, bytes: nat)
    requires ValidStore(ty, bytes)
    ensures DecodeStore(StoreOpcode(ty, bytes)).Some?
    ensures DecodeStore(StoreOpcode(ty, bytes)).value.0 == ty
    ensures IsInteger(ty) ==> DecodeStore(StoreOpcode(ty, bytes)).value.1 == bytes
  {
  }

  // ---------------------------------------------------------------------------
  // Atomic operations (the byte after the 0xFE prefix)

  /** The (type, width) pairs an atomic access has an opcode for. */
  predicate ValidAtomic(ty: Type, bytes: nat)
  {
    (ty == i32 && (bytes == 1 || bytes == 2 || bytes == 4))
    || (ty == i64 && (bytes == 1 || bytes == 2 || bytes == 4 || bytes == 8))
  }

  /** The threads proposal lays out every group of atomic accesses as seven
      consecutive opcodes: i32, i64, i32_8u, i32_16u, i64_8u, i64_16u, i64_32u.
      The natural width needs no `_u` suffix; narrower ones zero-extend. */
  function WidthSlot(ty: Type, bytes: nat): (k: nat)
    requires ValidAtomic(ty, bytes)
    ensures k < 7
  {
    if ty == i32 then (if bytes == 4 then 0 else if bytes == 1 then 2 else 3)
    else if bytes == 8 then 1 else if bytes == 1 then 4 else if bytes == 2 then 5 else 6
  }

  function SlotType(k: nat): Type
    requires k < 7
  {
    if k == 0 || k == 2 || k == 3 then i32 else i64
  }

  function SlotBytes(k: nat): nat
    requires k < 7
  {
    if k == 0 then 4 else if k == 1 then 8 else if k == 2 || k == 4 then 1
    else if k == 3 || k == 5 then 2 else 4
  }

  lemma WidthSlotInverse(ty: Type, bytes: nat)
    requires ValidAtomic(ty, bytes)
    ensures SlotType(WidthSlot(ty, bytes)) == ty && SlotBytes(WidthSlot(ty, bytes)) == bytes
  {
  }

  function AtomicLoadOpcode(ty: Type, bytes: nat): (b: byte)
    requires ValidAtomic(ty, bytes)
    ensures 0x10 <= b <= 0x16
  {
    (0x10 + WidthSlot(ty, bytes)) as byte
  }

  function AtomicStoreOpcode(ty: Type, bytes: nat): (b: byte)
    requires ValidAtomic(ty, bytes)
    ensures 0x17 <= b <= 0x1D
  {
    (0x17 + WidthSlot(ty, bytes)) as byte
  }

  /** The first opcode of each read-modify-write group. */
  function RMWBase(op: AtomicRMWOp): (b: nat)
    ensures 0x1E <= b <= 0x41 && (b - 0x1E) % 7 == 0
  {
    match op
    case Add => 0x1E
    case Sub => 0x25
    case And => 0x2C
    case Or => 0x33
    case Xor => 0x3A
    case Xchg => 0x41
  }

  function AtomicRMWOpcode(op: AtomicRMWOp, ty: Type, bytes: nat): (b: byte)
    requires ValidAtomic(ty, bytes)
    ensures 0x1E <= b <= 0x47
  {
    (RMWBase(op) + WidthSlot(ty, bytes)) as byte
  }

  function AtomicCmpxchgOpcode(ty: Type, bytes: nat): (b: byte)
    requires ValidAtomic(ty, bytes)
    ensures 0x48 <= b <= 0x4E
  {
    (0x48 + WidthSlot(ty, bytes)) as byte
  }

  /** What an atomic opcode (after the prefix) says. */
  datatype AtomicKind =
    | AtomicLoadK(ty: Type, bytes: nat)
    | AtomicStoreK(ty: Type, bytes: nat)
    | AtomicRMWK(op: AtomicRMWOp, ty: Type, bytes: nat)
    | AtomicCmpxchgK(ty: Type, bytes: nat)
    | AtomicWaitK(ty: Type)
    | AtomicWakeK

  function RMWOfGroup(g: nat): AtomicRMWOp
    requires g < 6
  {
    if g == 0 then Add else if g == 1 then Sub else if g == 2 then And
    else if g == 3 then Or else if g == 4 then Xor else Xchg
  }

  function DecodeAtomic(b: byte): Option<AtomicKind>
  {
    if b == ATOMIC_WAKE then Some(AtomicWakeK)
    else if b == I32_ATOMIC_WAIT then Some(AtomicWaitK(i32))
    else if b == I64_ATOMIC_WAIT then Some(AtomicWaitK(i64))
    else if 0x10 <= b <= 0x16 then
      var k := (b - 0x10) as nat; Some(AtomicLoadK(SlotType(k), SlotBytes(k)))
    else if 0x17 <= b <= 0x1D then
      var k := (b - 0x17) as nat; Some(AtomicStoreK(SlotType(k), SlotBytes(k)))
    else if 0x1E <= b <= 0x47 then
      var d := (b - 0x1E) as nat; Some(AtomicRMWK(RMWOfGroup(d / 7), SlotType(d % 7), SlotBytes(d % 7)))
    else if 0x48 <= b <= 0x4E then
      var k := (b - 0x48) as nat; Some(AtomicCmpxchgK(SlotType(k), SlotBytes(k)))
    else None
  }

  lemma AtomicLoadRoundTrip(ty: Type, bytes: nat)
    requires ValidAtomic(ty, bytes)
    ensures DecodeAtomic(AtomicLoadOpcode(ty, bytes)) == Some(AtomicLoadK(ty, bytes))
  {
    WidthSlotInverse(ty, bytes);
  }

  lemma AtomicStoreRoundTrip(ty: Type, bytes: nat)
    requires ValidAtomic(ty, bytes)
    ensures DecodeAtomic(AtomicStoreOpcode(ty, bytes)) == Some(AtomicStoreK(ty, bytes))
  {
    WidthSlotInverse(ty, bytes);
  }

  lemma AtomicRMWRoundTrip(op: AtomicRMWOp, ty: Type, bytes: nat)
    requires ValidAtomic(ty, bytes)
    ensures DecodeAtomic(AtomicRMWOpcode(op, ty, bytes)) == Some(AtomicRMWK(op, ty, bytes))
  {
    WidthSlotInverse(ty, bytes);
    var k := WidthSlot(ty, bytes);
    var d := RMWBase(op) + k - 0x1E;
    assert d / 7 == (RMWBase(op) - 0x1E) / 7 && d % 7 == k;
  }

  lemma AtomicCmpxchgRoundTrip(ty: Type, bytes: nat)
    requires ValidAtomic(ty, bytes)
    ensures DecodeAtomic(AtomicCmpxchgOpcode(ty, bytes)) == Some(AtomicCmpxchgK(ty, bytes))
  {
    WidthSlotInverse(ty, bytes);
  }
}
