/** The tree IR consumed by the Stack IR writer, the Stack IR builder and the
    DataFlow builder: expression nodes, each tagged with its type. */
module Wasm {

  newtype byte = b: int | 0 <= b < 0x100
  newtype int32 = x: int | -0x8000_0000 <= x < 0x8000_0000
  newtype int64 = x: int | -0x8000_0000_0000_0000 <= x < 0x8000_0000_0000_0000

  datatype Option<+T> = None | Some(value: T)

  /** The IR's types: the four value types, `none` (no value) and
      `unreachable` (the expression never completes). */
  datatype Type = none | unreachable | i32 | i64 | f32 | f64

  predicate IsInteger(t: Type) { t == i32 || t == i64 }

  /** A label on the branch stack: the name of a block or loop (empty when the
      construct has none), or the sentinel pushed for the arms of an if. */
  datatype Label = Unnamed | ImpossibleContinue | Named(id: string)

  /** A constant; floating-point constants are kept as their IEEE bit pattern. */
  datatype Literal = LitI32(i32: int32) | LitI64(i64: int64) | LitF32(bits32: bv32) | LitF64(bits64: bv64)

  datatype UnaryOp =
    | ClzInt32 | CtzInt32 | PopcntInt32 | EqZInt32
    | ClzInt64 | CtzInt64 | PopcntInt64 | EqZInt64
    | NegFloat32 | AbsFloat32 | CeilFloat32 | FloorFloat32 | TruncFloat32 | NearestFloat32 | SqrtFloat32
    | NegFloat64 | AbsFloat64 | CeilFloat64 | FloorFloat64 | TruncFloat64 | NearestFloat64 | SqrtFloat64
    | ExtendSInt32 | ExtendUInt32 | WrapInt64
    | TruncUFloat32ToInt32 | TruncUFloat32ToInt64 | TruncSFloat32ToInt32 | TruncSFloat32ToInt64
    | TruncUFloat64ToInt32 | TruncUFloat64ToInt64 | TruncSFloat64ToInt32 | TruncSFloat64ToInt64
    | ConvertUInt32ToFloat32 | ConvertUInt32ToFloat64 | ConvertSInt32ToFloat32 | ConvertSInt32ToFloat64
    | ConvertUInt64ToFloat32 | ConvertUInt64ToFloat64 | ConvertSInt64ToFloat32 | ConvertSInt64ToFloat64
    | DemoteFloat64 | PromoteFloat32
    | ReinterpretFloat32 | ReinterpretFloat64 | ReinterpretInt32 | ReinterpretInt64
    | ExtendS8Int32 | ExtendS16Int32 | ExtendS8Int64 | ExtendS16Int64 | ExtendS32Int64

  datatype BinaryOp =
    | AddInt32 | SubInt32 | MulInt32 | DivSInt32 | DivUInt32 | RemSInt32 | RemUInt32
    | AndInt32 | OrInt32 | XorInt32 | ShlInt32 | ShrUInt32 | ShrSInt32 | RotLInt32 | RotRInt32
    | EqInt32 | NeInt32 | LtSInt32 | LtUInt32 | LeSInt32 | LeUInt32 | GtSInt32 | GtUInt32 | GeSInt32 | GeUInt32
    | AddInt64 | SubInt64 | MulInt64 | DivSInt64 | DivUInt64 | RemSInt64 | RemUInt64
    | AndInt64 | OrInt64 | XorInt64 | ShlInt64 | ShrUInt64 | ShrSInt64 | RotLInt64 | RotRInt64
    | EqInt64 | NeInt64 | LtSInt64 | LtUInt64 | LeSInt64 | LeUInt64 | GtSInt64 | GtUInt64 | GeSInt64 | GeUInt64
    | AddFloat32 | SubFloat32 | MulFloat32 | DivFloat32 | CopySignFloat32 | MinFloat32 | MaxFloat32
    | EqFloat32 | NeFloat32 | LtFloat32 | LeFloat32 | GtFloat32 | GeFloat32
    | AddFloat64 | SubFloat64 | MulFloat64 | DivFloat64 | CopySignFloat64 | MinFloat64 | MaxFloat64
    | EqFloat64 | NeFloat64 | LtFloat64 | LeFloat64 | GtFloat64 | GeFloat64

  datatype AtomicRMWOp = Add | Sub | And | Or | Xor | Xchg

  datatype HostOp = CurrentMemory | GrowMemory

  /** An expression node. Every node carries its type `ty`. Function, global
      and signature names are strings; locals are numbered. */
  datatype Expr =
    | Block(name: Label, list: seq<Expr>, ty: Type)
    | If(condition: Expr, ifTrue: Expr, ifFalse: Option<Expr>, ty: Type)
    | Loop(name: Label, body: Expr, ty: Type)
    | Break(name: Label, optValue: Option<Expr>, optCondition: Option<Expr>, ty: Type)
    | Switch(targets: seq<Label>, defaultTarget: Label, optValue: Option<Expr>, condition: Expr,
             branchReachable: bool, ty: Type)
    | Call(target: string, operands: seq<Expr>, ty: Type)
    | CallImport(target: string, operands: seq<Expr>, ty: Type)
    | CallIndirect(fullType: string, operands: seq<Expr>, callee: Expr, ty: Type)
    | GetLocal(index: nat, ty: Type)
    | SetLocal(index: nat, value: Expr, isTee: bool, ty: Type)
    | GetGlobal(global: string, ty: Type)
    | SetGlobal(global: string, value: Expr, ty: Type)
    | Load(bytes: nat, signed: bool, offset: nat, align: nat, isAtomic: bool, ptr: Expr, ty: Type)
    | Store(bytes: nat, offset: nat, align: nat, isAtomic: bool, ptr: Expr, value: Expr,
            valueType: Type, ty: Type)
    | AtomicRMW(rmwOp: AtomicRMWOp, bytes: nat, offset: nat, ptr: Expr, value: Expr, ty: Type)
    | AtomicCmpxchg(bytes: nat, offset: nat, ptr: Expr, expected: Expr, replacement: Expr, ty: Type)
    | AtomicWait(ptr: Expr, expected: Expr, timeout: Expr, expectedType: Type, ty: Type)
    | AtomicWake(ptr: Expr, wakeCount: Expr, ty: Type)
    | Const(literal: Literal, ty: Type)
    | Unary(unaryOp: UnaryOp, value: Expr, ty: Type)
    | Binary(binaryOp: BinaryOp, left: Expr, right: Expr, ty: Type)
    | Select(trueValue: Expr, falseValue: Expr, condition: Expr, ty: Type)
    | Drop(value: Expr, ty: Type)
    | Return(optValue: Option<Expr>, ty: Type)
    | Host(hostOp: HostOp, operands: seq<Expr>, ty: Type)
    | Nop(ty: Type)
    | Unreachable(ty: Type)

  function OptList(o: Option<Expr>): (r: seq<Expr>)
    ensures |r| == if o.Some? then 1 else 0
    ensures o.Some? ==> r[0] == o.value
  {
    if o.Some? then [o.value] else []
  }

  /** The direct sub-expressions of a node, in evaluation order: the order in
      which a stack machine must see them. */
  function Children(e: Expr): (r: seq<Expr>)
    ensures forall k :: 0 <= k < |r| ==> r[k] < e
  {
    match e
    case Block(_, list, _) => list
    case If(c, t, f, _) => [c, t] + OptList(f)
    case Loop(_, body, _) => [body]
    case Break(_, v, c, _) => OptList(v) + OptList(c)
    case Switch(_, _, v, c, _, _) => OptList(v) + [c]
    case Call(_, operands, _) => operands
    case CallImport(_, operands, _) => operands
    case CallIndirect(_, operands, callee, _) => operands + [callee]
    case GetLocal(_, _) => []
    case SetLocal(_, value, _, _) => [value]
    case GetGlobal(_, _) => []
    case SetGlobal(_, value, _) => [value]
    case Load(_, _, _, _, _, ptr, _) => [ptr]
    case Store(_, _, _, _, ptr, value, _, _) => [ptr, value]
    case AtomicRMW(_, _, _, ptr, value, _) => [ptr, value]
    case AtomicCmpxchg(_, _, ptr, expected, replacement, _) => [ptr, expected, replacement]
    case AtomicWait(ptr, expected, timeout, _, _) => [ptr, expected, timeout]
    case AtomicWake(ptr, wakeCount, _) => [ptr, wakeCount]
    case Const(_, _) => []
    case Unary(_, value, _) => [value]
    case Binary(_, left, right, _) => [left, right]
    case Select(t, f, c, _) => [t, f, c]
    case Drop(value, _) => [value]
    case Return(v, _) => OptList(v)
    case Host(_, operands, _) => operands
    case Nop(_) => []
    case Unreachable(_) => []
  }

  /** The labels a node itself branches to (not those of its sub-expressions). */
  function OwnTargets(e: Expr): set<Label>
  {
    match e
    case Break(name, _, _, _) => {name}
    case Switch(targets, d, _, _, _, _) => (set k | 0 <= k < |targets| :: targets[k]) + {d}
    case _ => {}
  }

  /** Whether some branch anywhere inside `e` names `target`: the search a
      branch seeker performs over a whole subtree. */
  predicate HasNamed(e: Expr, target: Label)
    decreases e
  {
    target in OwnTargets(e) || exists k :: 0 <= k < |Children(e)| && HasNamed(Children(e)[k], target)
  }

  /** A block is branched to when it has a name and some branch inside it names it. */
  predicate BrokenTo(e: Expr)
    requires e.Block?
  {
    e.name.Named? && HasNamed(e, e.name)
  }

  predicate IsPowerOfTwo(x: nat)
    decreases x
  {
    x == 1 || (x > 1 && x % 2 == 0 && IsPowerOfTwo(x / 2))
  }

  function Pow2(k: nat): (r: nat)
    ensures r >= 1
  {
    if k == 0 then 1 else 2 * Pow2(k - 1)
  }

  /** The base-2 logarithm of a power of two. */
  function Log2(x: nat): (k: nat)
    requires IsPowerOfTwo(x)
    ensures Pow2(k) == x
    decreases x
  {
    if x == 1 then 0 else 1 + Log2(x / 2)
  }

  lemma {:induction false} Log2OfPow2(k: nat)
    ensures IsPowerOfTwo(Pow2(k)) && Log2(Pow2(k)) == k
  {
    if k > 0 {
      Log2OfPow2(k - 1);
      assert Pow2(k) / 2 == Pow2(k - 1);
    }
  }
}
