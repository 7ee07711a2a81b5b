/** The Stack IR binary writer: a walk over the expression tree that appends the
    WebAssembly instruction encoding of each node to an output buffer, keeping a
    stack of the labels in scope so that branches can be written as relative
    depths.

    `Encode` is the specification: the token sequence the writer appends for a
    node, given the label stack in force when the node is visited. The class
    `Writer` is the walk itself, one method per visitor, each proved to append
    exactly `Encode` of its node and to leave the label stack as it found it. */
module StackWriter {
  import opened Wasm
  import opened Opcodes
  import opened Sequences

  /** One item of the output. Immediates are kept apart from opcodes so that the
      structure of the stream can be read back; module Leb128 gives the bytes
      of the integer immediates and of the float bit patterns. */
  datatype Token =
    | Op(code: byte)          // a one-byte opcode
    | Atomic(code: byte)      // the 0xFE prefix followed by this opcode byte
    | BlockType(t: Type)      // the block-type byte of block, loop and if
    | U32(n: nat)             // an unsigned LEB128 immediate
    | S32(v: int32)           // a signed LEB128 immediate of i32.const
    | S64(w: int64)           // a signed LEB128 immediate of i64.const
    | F32Bits(bits32: bv32)   // the little-endian bit pattern of f32.const
    | F64Bits(bits64: bv64)   // the little-endian bit pattern of f64.const

  /** The index spaces the writer looks names up in: function, global and
      signature indices, and the mapping of IR locals to binary locals. */
  datatype Indices = Indices(
    functionIndex: string -> nat,
    globalIndex: string -> nat,
    functionTypeIndex: string -> nat,
    mappedLocal: nat -> nat)

  /** The type written as the signature of a block, loop or if: a construct of
      type unreachable cannot be expressed, so it is written as none. */
  function Signature(t: Type): (s: Type)
    ensures s != unreachable
    ensures t != unreachable ==> s == t
  {
    if t == unreachable then none else t
  }

  /** The relative depth of the innermost label `name` on `stack` (whose last
      element is the innermost). */
  function BreakIndex(stack: seq<Label>, name: Label): (d: nat)
    requires name in stack
    ensures d < |stack|
    ensures stack[|stack| - 1 - d] == name
    ensures forall j :: |stack| - 1 - d < j < |stack| ==> stack[j] != name
  {
    if stack[|stack| - 1] == name then 0
    else
      assert name in stack[..|stack| - 1] by {
        var k :| 0 <= k < |stack| && stack[k] == name;
        assert k < |stack| - 1 && stack[..|stack| - 1][k] == name;
      }
      1 + BreakIndex(stack[..|stack| - 1], name)
  }

  /** The alignment and offset immediates of a memory access: the base-2
      logarithm of the alignment (of the access width when the alignment is
      left at 0), then the offset. */
  function MemArg(align: nat, bytes: nat, offset: nat): (r: seq<Token>)
    requires IsPowerOfTwo(if align != 0 then align else bytes)
    ensures |r| == 2 && r[1] == U32(offset)
    ensures r[0].U32? && Pow2(r[0].n) == (if align != 0 then align else bytes)
  {
    [U32(Log2(if align != 0 then align else bytes)), U32(offset)]
  }

  predicate LiteralMatches(lit: Literal, t: Type)
  {
    match lit
    case LitI32(_) => t == i32
    case LitI64(_) => t == i64
    case LitF32(_) => t == f32
    case LitF64(_) => t == f64
  }

  /** Whether a block in the position of a whole function body, an if arm or a
      loop body is written as a bare list of its children. */
  predicate Elided(e: Expr)
  {
    e.Block? && !BrokenTo(e)
  }

  /** The trees the writer handles without aborting, with `stack` the labels in
      scope: every branch target is on the stack, every memory access has an
      opcode for its type and width and a power-of-two alignment, every
      constant's literal has the constant's type, an unreachable if has an else
      arm, memory.grow has its operand, and an elided unreachable block is not
      empty. A sub-expression the writer never visits is not constrained. */
  predicate Encodable(e: Expr, stack: seq<Label>)
    decreases e, 1
  {
    match e
    case Block(name, list, _) => ListEncodable(list, stack + [name])
    case If(c, t, f, ty) =>
      Encodable(c, stack)
      && (c.ty != unreachable ==>
            ContentsEncodable(t, stack + [ImpossibleContinue])
            && (f.Some? ==> ContentsEncodable(f.value, stack + [ImpossibleContinue]))
            && (ty == unreachable ==> f.Some?))
    case Loop(name, body, _) => ContentsEncodable(body, stack + [name])
    case Break(name, v, c, _) => OptEncodable(v, stack) && OptEncodable(c, stack) && name in stack
    case Switch(targets, d, v, c, reachable, _) =>
      OptEncodable(v, stack) && Encodable(c, stack)
      && (reachable ==> d in stack && forall k :: 0 <= k < |targets| ==> targets[k] in stack)
    case Call(_, operands, _) => ListEncodable(operands, stack)
    case CallImport(_, operands, _) => ListEncodable(operands, stack)
    case CallIndirect(_, operands, callee, _) => ListEncodable(operands, stack) && Encodable(callee, stack)
    case GetLocal(_, _) => true
    case SetLocal(_, value, _, _) => Encodable(value, stack)
    case GetGlobal(_, _) => true
    case SetGlobal(_, value, _) => Encodable(value, stack)
    case Load(bytes, _, _, align, isAtomic, ptr, ty) =>
      Encodable(ptr, stack)
      && (ty != unreachable ==>
            (if isAtomic then ValidAtomic(ty, bytes) else ValidLoad(ty, bytes))
            && IsPowerOfTwo(if align != 0 then align else bytes))
    case Store(bytes, _, align, isAtomic, ptr, value, valueType, ty) =>
      Encodable(ptr, stack) && Encodable(value, stack)
      && (!isAtomic ==> ValidStore(valueType, bytes) && IsPowerOfTwo(if align != 0 then align else bytes))
      && (isAtomic && ty != unreachable ==>
            ValidAtomic(valueType, bytes) && IsPowerOfTwo(if align != 0 then align else bytes))
    case AtomicRMW(_, bytes, _, _, _, ty) =>
      StagedEncodable(Children(e), stack, e)
      && (AllReachable(Children(e)) && ty != unreachable ==> ValidAtomic(ty, bytes) && IsPowerOfTwo(bytes))
    case AtomicCmpxchg(bytes, _, _, _, _, ty) =>
      StagedEncodable(Children(e), stack, e)
      && (AllReachable(Children(e)) && ty != unreachable ==> ValidAtomic(ty, bytes) && IsPowerOfTwo(bytes))
    case AtomicWait(_, _, _, expectedType, _) =>
      StagedEncodable(Children(e), stack, e) && (AllReachable(Children(e)) ==> IsInteger(expectedType))
    case AtomicWake(_, _, _) => StagedEncodable(Children(e), stack, e)
    case Const(lit, ty) => LiteralMatches(lit, ty)
    case Unary(_, value, _) => Encodable(value, stack)
    case Binary(_, left, right, _) => Encodable(left, stack) && Encodable(right, stack)
    case Select(t, f, c, _) => Encodable(t, stack) && Encodable(f, stack) && Encodable(c, stack)
    case Drop(value, _) => Encodable(value, stack)
    case Return(v, _) => OptEncodable(v, stack)
    case Host(op, operands, _) => op == GrowMemory ==> |operands| > 0 && Encodable(operands[0], stack)
    case Nop(_) => true
    case Unreachable(_) => true
  }

  /** Whether every operand completes. */
  predicate AllReachable(xs: seq<Expr>)
  {
    forall k :: 0 <= k < |xs| ==> xs[k].ty != unreachable
  }

  /** The operands of an atomic operation the writer visits: all of them, up
      to and including the first one that never completes. */
  function Staged(xs: seq<Expr>): (r: seq<Expr>)
    ensures |r| <= |xs| && r == xs[..|r|]
    ensures AllReachable(xs) <==> r == xs && AllReachable(r)
    ensures |r| < |xs| ==> |r| > 0 && r[|r| - 1].ty == unreachable && AllReachable(r[..|r| - 1])
  {
    if |xs| == 0 then []
    else if xs[0].ty == unreachable then [xs[0]]
    else [xs[0]] + Staged(xs[1..])
  }

  /** The operands an atomic operation visits are encodable: `xs` are the
      operands of `parent`. */
  predicate StagedEncodable(xs: seq<Expr>, stack: seq<Label>, parent: Expr)
    requires forall k :: 0 <= k < |xs| ==> xs[k] < parent
    decreases parent, 0
  {
    forall k :: 0 <= k < |Staged(xs)| ==> Encodable(xs[k], stack)
  }

  /** The writer reaches operand `i` when all before it complete, and stops
      there when it does not complete. */
  lemma {:induction false} StagedLength(xs: seq<Expr>, i: nat)
    requires i < |xs| && AllReachable(xs[..i])
    ensures i < |Staged(xs)|
    ensures xs[i].ty == unreachable ==> |Staged(xs)| == i + 1
  {
    if i > 0 {
      assert xs[0].ty != unreachable by { assert xs[..i][0] == xs[0]; }
      assert xs[1..][..i - 1] == xs[..i][1..];
      StagedLength(xs[1..], i - 1);
    }
  }

  /** One more operand that completes extends the prefix that completes. */
  lemma ReachablePrefix(xs: seq<Expr>, i: nat)
    requires i < |xs| && AllReachable(xs[..i]) && xs[i].ty != unreachable
    ensures AllReachable(xs[..i + 1])
  {
    assert xs[..i + 1] == xs[..i] + [xs[i]];
  }

  lemma StagedOperand(xs: seq<Expr>, i: nat, stack: seq<Label>, parent: Expr)
    requires forall k :: 0 <= k < |xs| ==> xs[k] < parent
    requires StagedEncodable(xs, stack, parent) && i < |Staged(xs)|
    ensures Encodable(xs[i], stack)
  {
  }

  predicate ListEncodable(xs: seq<Expr>, stack: seq<Label>)
    decreases xs
  {
    forall k :: 0 <= k < |xs| ==> Encodable(xs[k], stack)
  }

  predicate OptEncodable(o: Option<Expr>, stack: seq<Label>)
    decreases o
  {
    o.Some? ==> Encodable(o.value, stack)
  }

  predicate ContentsEncodable(e: Expr, stack: seq<Label>)
    decreases e, 2
  {
    if Elided(e) then ListEncodable(e.list, stack) && (e.ty == unreachable ==> |e.list| > 0)
    else Encodable(e, stack)
  }

  /** An `unreachable` appended after a construct of type unreachable. */
  function TrailingUnreachable(t: Type): seq<Token>
  {
    if t == unreachable then [Op(UNREACHABLE)] else []
  }

  /** The tokens the writer appends for `e`, with `stack` the labels in scope. */
  function Encode(e: Expr, ix: Indices, stack: seq<Label>): seq<Token>
    requires Encodable(e, stack)
    decreases e, 2
  {
    match e
    case Block(_, _, _) => EncodeBlock(e, ix, stack)
    case If(_, _, _, _) => EncodeIf(e, ix, stack)
    case Loop(_, _, _) => EncodeLoop(e, ix, stack)
    case Break(_, _, _, _) => EncodeBreak(e, ix, stack)
    case Switch(_, _, _, _, _, _) => EncodeSwitch(e, ix, stack)
    case Call(_, _, _) => EncodeCall(e, ix, stack)
    case CallImport(_, _, _) => EncodeCallImport(e, ix, stack)
    case CallIndirect(_, _, _, _) => EncodeCallIndirect(e, ix, stack)
    case GetLocal(index, _) => [Op(LOCAL_GET), U32(ix.mappedLocal(index))]
    case SetLocal(_, _, _, _) => EncodeSetLocal(e, ix, stack)
    case GetGlobal(g, _) => [Op(GLOBAL_GET), U32(ix.globalIndex(g))]
    case SetGlobal(g, value, _) => Encode(value, ix, stack) + [Op(GLOBAL_SET), U32(ix.globalIndex(g))]
    case Load(_, _, _, _, _, _, _) => EncodeLoad(e, ix, stack)
    case Store(_, _, _, _, _, _, _, _) => EncodeStore(e, ix, stack)
    case AtomicRMW(_, _, _, _, _, _) => EncodeAtomicRMW(e, ix, stack)
    case AtomicCmpxchg(_, _, _, _, _, _) => EncodeAtomicCmpxchg(e, ix, stack)
    case AtomicWait(_, _, _, _, _) => EncodeAtomicWait(e, ix, stack)
    case AtomicWake(_, _, _) => EncodeAtomicWake(e, ix, stack)
    case Const(lit, _) =>
      (match lit
       case LitI32(x) => [Op(I32_CONST), S32(x)]
       case LitI64(x) => [Op(I64_CONST), S64(x)]
       case LitF32(bits) => [Op(F32_CONST), F32Bits(bits)]
       case LitF64(bits) => [Op(F64_CONST), F64Bits(bits)])
    case Unary(_, _, _) => EncodeUnary(e, ix, stack)
    case Binary(_, _, _, _) => EncodeBinary(e, ix, stack)
    case Select(_, _, _, _) => EncodeSelect(e, ix, stack)
    case Drop(value, _) => Encode(value, ix, stack) + [Op(DROP)]
    case Return(v, _) => EncodeOpt(v, ix, stack) + [Op(RETURN)]
    case Host(_, _, _) => EncodeHost(e, ix, stack)
    case Nop(_) => [Op(NOP)]
    case Unreachable(_) => [Op(UNREACHABLE)]
  }

  /** A call: the operands, then `call` with the function's index, and an
      `unreachable` after a call of type unreachable. */
  function EncodeCall(e: Expr, ix: Indices, stack: seq<Label>): seq<Token>
    requires e.Call? && Encodable(e, stack)
    decreases e, 1
  {
    var Call(target, operands, ty) := e;
    EncodeList(operands, ix, stack) + [Op(CALL), U32(ix.functionIndex(target))] + TrailingUnreachable(ty)
  }

  /** A call to an import: the operands, then `call` with the function's index;
      no `unreachable` is added. */
  function EncodeCallImport(e: Expr, ix: Indices, stack: seq<Label>): seq<Token>
    requires e.CallImport? && Encodable(e, stack)
    decreases e, 1
  {
    var CallImport(target, operands, _) := e;
    EncodeList(operands, ix, stack) + [Op(CALL), U32(ix.functionIndex(target))]
  }

  /** An indirect call: the operands and the callee, then `call_indirect` with
      the signature's index and the reserved 0, and an `unreachable` after a
      call of type unreachable. */
  function EncodeCallIndirect(e: Expr, ix: Indices, stack: seq<Label>): seq<Token>
    requires e.CallIndirect? && Encodable(e, stack)
    decreases e, 1
  {
    var CallIndirect(fullType, operands, callee, ty) := e;
    EncodeList(operands, ix, stack) + Encode(callee, ix, stack)
    + [Op(CALL_INDIRECT), U32(ix.functionTypeIndex(fullType)), U32(0)] + TrailingUnreachable(ty)
  }

  /** A local write: the value, then `local.tee` or `local.set` with the mapped
      local, and an `unreachable` after a write of type unreachable. */
  function EncodeSetLocal(e: Expr, ix: Indices, stack: seq<Label>): seq<Token>
    requires e.SetLocal? && Encodable(e, stack)
    decreases e, 1
  {
    var SetLocal(index, value, isTee, ty) := e;
    Encode(value, ix, stack) + [Op(if isTee then LOCAL_TEE else LOCAL_SET), U32(ix.mappedLocal(index))]
    + TrailingUnreachable(ty)
  }

  /** A unary operation: the operand, the opcode, and an `unreachable` after an
      operation of type unreachable. */
  function EncodeUnary(e: Expr, ix: Indices, stack: seq<Label>): seq<Token>
    requires e.Unary? && Encodable(e, stack)
    decreases e, 1
  {
    var Unary(op, value, ty) := e;
    Encode(value, ix, stack) + [Op(UnaryOpcode(op))] + TrailingUnreachable(ty)
  }

  /** A binary operation: both operands, the opcode, and an `unreachable` after
      an operation of type unreachable. */
  function EncodeBinary(e: Expr, ix: Indices, stack: seq<Label>): seq<Token>
    requires e.Binary? && Encodable(e, stack)
    decreases e, 1
  {
    var Binary(op, left, right, ty) := e;
    Encode(left, ix, stack) + Encode(right, ix, stack) + [Op(BinaryOpcode(op))] + TrailingUnreachable(ty)
  }

  /** A select: both values and the condition, `select`, and an `unreachable`
      after a select of type unreachable. */
  function EncodeSelect(e: Expr, ix: Indices, stack: seq<Label>): seq<Token>
    requires e.Select? && Encodable(e, stack)
    decreases e, 1
  {
    var Select(t, f, c, ty) := e;
    Encode(t, ix, stack) + Encode(f, ix, stack) + Encode(c, ix, stack) + [Op(SELECT)] + TrailingUnreachable(ty)
  }

  /** memory.size, or memory.grow after its operand; each followed by the reserved 0. */
  function EncodeHost(e: Expr, ix: Indices, stack: seq<Label>): seq<Token>
    requires e.Host? && Encodable(e, stack)
    decreases e, 1
  {
    var Host(op, operands, _) := e;
    if op == CurrentMemory then [Op(MEMORY_SIZE), U32(0)]
    else Encode(operands[0], ix, stack) + [Op(MEMORY_GROW), U32(0)]
  }

  /** A block: its signature, its children with its own label in scope, and
      around the `end` an `unreachable` on each side when the block is
      unreachable. */
  function EncodeBlock(e: Expr, ix: Indices, stack: seq<Label>): seq<Token>
    requires e.Block? && Encodable(e, stack)
    decreases e, 1
  {
    var Block(name, list, ty) := e;
    [Op(BLOCK), BlockType(Signature(ty))] + EncodeList(list, ix, stack + [name])
    + TrailingUnreachable(ty) + [Op(END)] + TrailingUnreachable(ty)
  }

  /** An if: when the condition never completes, only the condition and an
      `unreachable`; otherwise the condition, the `if` with its signature, each
      arm (as possible block contents, with a label that no branch names in
      scope), `end`, and an `unreachable` after an unreachable if. */
  function EncodeIf(e: Expr, ix: Indices, stack: seq<Label>): seq<Token>
    requires e.If? && Encodable(e, stack)
    decreases e, 1
  {
    var If(c, t, f, ty) := e;
    if c.ty == unreachable then Encode(c, ix, stack) + [Op(UNREACHABLE)]
    else
      Encode(c, ix, stack) + [Op(IF), BlockType(Signature(ty))]
      + EncodeContents(t, ix, stack + [ImpossibleContinue])
      + ElseArm(e, ix, stack) + [Op(END)] + TrailingUnreachable(ty)
  }

  /** The else arm of an if, when it has one: `else` and the arm as possible
      block contents. */
  function ElseArm(e: Expr, ix: Indices, stack: seq<Label>): seq<Token>
    requires e.If? && Encodable(e, stack) && e.condition.ty != unreachable
    decreases e, 0
  {
    if e.ifFalse.Some? then [Op(ELSE)] + EncodeContents(e.ifFalse.value, ix, stack + [ImpossibleContinue]) else []
  }

  /** A loop: its signature, its body as possible block contents with its own
      label in scope, `end`, and an `unreachable` after an unreachable loop. */
  function EncodeLoop(e: Expr, ix: Indices, stack: seq<Label>): seq<Token>
    requires e.Loop? && Encodable(e, stack)
    decreases e, 1
  {
    var Loop(name, body, ty) := e;
    [Op(LOOP), BlockType(Signature(ty))] + EncodeContents(body, ix, stack + [name])
    + [Op(END)] + TrailingUnreachable(ty)
  }

  /** A branch: value and condition, `br_if` or `br` with the depth of the
      target, and an `unreachable` after a conditional branch of type
      unreachable. */
  function EncodeBreak(e: Expr, ix: Indices, stack: seq<Label>): seq<Token>
    requires e.Break? && Encodable(e, stack)
    decreases e, 1
  {
    var Break(name, v, c, ty) := e;
    EncodeOpt(v, ix, stack) + EncodeOpt(c, ix, stack)
    + [Op(if c.Some? then BR_IF else BR), U32(BreakIndex(stack, name))]
    + (if c.Some? then TrailingUnreachable(ty) else [])
  }

  /** A branch table: value and index; then either a lone `unreachable` when the
      branch cannot be taken, or `br_table` with the count, the depth of each
      target and the depth of the default. */
  function EncodeSwitch(e: Expr, ix: Indices, stack: seq<Label>): seq<Token>
    requires e.Switch? && Encodable(e, stack)
    decreases e, 1
  {
    var Switch(targets, d, v, c, reachable, _) := e;
    EncodeOpt(v, ix, stack) + Encode(c, ix, stack)
    + if !reachable then [Op(UNREACHABLE)]
      else [Op(BR_TABLE), U32(|targets|)] + BranchDepths(targets, stack) + [U32(BreakIndex(stack, d))]
  }

  /** A load: the pointer; then nothing for a plain load of type unreachable, a
      lone `unreachable` for an atomic one, or the opcode and its memory
      immediates. */
  function EncodeLoad(e: Expr, ix: Indices, stack: seq<Label>): seq<Token>
    requires e.Load? && Encodable(e, stack)
    decreases e, 1
  {
    var Load(bytes, signed, offset, align, isAtomic, ptr, ty) := e;
    if ty == unreachable then (if isAtomic then Encode(ptr, ix, stack) + [Op(UNREACHABLE)] else Encode(ptr, ix, stack))
    else
      Encode(ptr, ix, stack)
      + [if isAtomic then Atomic(AtomicLoadOpcode(ty, bytes)) else Op(LoadOpcode(ty, bytes, signed))]
      + MemArg(align, bytes, offset)
  }

  /** A store: pointer and value; then the opcode and memory immediates, except
      that an atomic store of type unreachable is a lone `unreachable`. */
  function EncodeStore(e: Expr, ix: Indices, stack: seq<Label>): seq<Token>
    requires e.Store? && Encodable(e, stack)
    decreases e, 1
  {
    var Store(bytes, offset, align, isAtomic, ptr, value, valueType, ty) := e;
    if isAtomic && ty == unreachable then Encode(ptr, ix, stack) + Encode(value, ix, stack) + [Op(UNREACHABLE)]
    else
      Encode(ptr, ix, stack) + Encode(value, ix, stack)
      + [if isAtomic then Atomic(AtomicStoreOpcode(valueType, bytes)) else Op(StoreOpcode(valueType, bytes))]
      + MemArg(align, bytes, offset)
  }

  /** The first `n` operands `xs` of `parent`, one after the other. */
  function EncodeOperands(xs: seq<Expr>, n: nat, ix: Indices, stack: seq<Label>, parent: Expr): seq<Token>
    requires forall k :: 0 <= k < |xs| ==> xs[k] < parent
    requires n <= |xs| && forall k :: 0 <= k < n ==> Encodable(xs[k], stack)
    decreases parent, 0, n
  {
    if n == 0 then [] else EncodeOperands(xs, n - 1, ix, stack, parent) + Encode(xs[n - 1], ix, stack)
  }

  /** The operands `xs` of an atomic operation `parent`, as the writer emits
      them: it stops after the first one that never completes. */
  function EncodeStaged(xs: seq<Expr>, ix: Indices, stack: seq<Label>, parent: Expr): seq<Token>
    requires forall k :: 0 <= k < |xs| ==> xs[k] < parent
    requires StagedEncodable(xs, stack, parent)
    decreases parent, 0, |xs| + 1
  {
    EncodeOperands(xs, |Staged(xs)|, ix, stack, parent)
  }

  /** The operands an encodable atomic operation visits are encodable. */
  lemma AtomicStaged(e: Expr, stack: seq<Label>)
    requires e.AtomicRMW? || e.AtomicCmpxchg? || e.AtomicWait? || e.AtomicWake?
    requires Encodable(e, stack)
    ensures StagedEncodable(Children(e), stack, e)
  {
  }

  /** An atomic read-modify-write: its staged operands; when they all
      complete, a lone `unreachable` for a result of type unreachable, or the
      opcode and memory immediates with the access width as alignment. */
  function EncodeAtomicRMW(e: Expr, ix: Indices, stack: seq<Label>): seq<Token>
    requires e.AtomicRMW? && Encodable(e, stack)
    decreases e, 1
  {
    var AtomicRMW(op, bytes, offset, _, _, ty) := e;
    AtomicStaged(e, stack);
    EncodeStaged(Children(e), ix, stack, e)
    + if !AllReachable(Children(e)) then []
      else if ty == unreachable then [Op(UNREACHABLE)]
      else [Atomic(AtomicRMWOpcode(op, ty, bytes))] + MemArg(bytes, bytes, offset)
  }

  /** An atomic compare-exchange: as the read-modify-write, with three operands. */
  function EncodeAtomicCmpxchg(e: Expr, ix: Indices, stack: seq<Label>): seq<Token>
    requires e.AtomicCmpxchg? && Encodable(e, stack)
    decreases e, 1
  {
    var AtomicCmpxchg(bytes, offset, _, _, _, ty) := e;
    AtomicStaged(e, stack);
    EncodeStaged(Children(e), ix, stack, e)
    + if !AllReachable(Children(e)) then []
      else if ty == unreachable then [Op(UNREACHABLE)]
      else [Atomic(AtomicCmpxchgOpcode(ty, bytes))] + MemArg(bytes, bytes, offset)
  }

  /** An atomic wait: its staged operands; when they all complete, the opcode
      for the width of the expected value with that width as alignment and
      offset 0. */
  function EncodeAtomicWait(e: Expr, ix: Indices, stack: seq<Label>): seq<Token>
    requires e.AtomicWait? && Encodable(e, stack)
    decreases e, 1
  {
    AtomicStaged(e, stack);
    EncodeStaged(Children(e), ix, stack, e)
    + if !AllReachable(Children(e)) then []
      else if e.expectedType == i32 then [Atomic(I32_ATOMIC_WAIT)] + MemArg(4, 4, 0)
      else [Atomic(I64_ATOMIC_WAIT)] + MemArg(8, 8, 0)
  }

  /** An atomic wake: its staged operands; when they all complete, the opcode
      with alignment 4 and offset 0. */
  function EncodeAtomicWake(e: Expr, ix: Indices, stack: seq<Label>): seq<Token>
    requires e.AtomicWake? && Encodable(e, stack)
    decreases e, 1
  {
    AtomicStaged(e, stack);
    EncodeStaged(Children(e), ix, stack, e)
    + if !AllReachable(Children(e)) then [] else [Atomic(ATOMIC_WAKE)] + MemArg(4, 4, 0)
  }

  /** The children of a list, one after the other. */
  function EncodeList(xs: seq<Expr>, ix: Indices, stack: seq<Label>): seq<Token>
    requires ListEncodable(xs, stack)
    decreases xs
  {
    if |xs| == 0 then []
    else EncodeList(xs[..|xs| - 1], ix, stack) + Encode(xs[|xs| - 1], ix, stack)
  }

  function EncodeOpt(o: Option<Expr>, ix: Indices, stack: seq<Label>): seq<Token>
    requires OptEncodable(o, stack)
    decreases o
  {
    if o.Some? then Encode(o.value, ix, stack) else []
  }

  /** A node in the position of an if arm or a loop body: a block nothing
      branches to is written as its children alone, followed by an
      `unreachable` when the block is unreachable but its last child is not. */
  function EncodeContents(e: Expr, ix: Indices, stack: seq<Label>): seq<Token>
    requires ContentsEncodable(e, stack)
    decreases e, 3
  {
    if Elided(e) then
      EncodeList(e.list, ix, stack)
      + (if e.ty == unreachable && e.list[|e.list| - 1].ty != unreachable then [Op(UNREACHABLE)] else [])
    else Encode(e, ix, stack)
  }

  /** The depths of the targets of a branch table, in order. */
  function BranchDepths(targets: seq<Label>, stack: seq<Label>): (r: seq<Token>)
    requires forall k :: 0 <= k < |targets| ==> targets[k] in stack
    ensures |r| == |targets|
    ensures forall k :: 0 <= k < |targets| ==> r[k] == U32(BreakIndex(stack, targets[k]))
  {
    if |targets| == 0 then []
    else BranchDepths(targets[..|targets| - 1], stack) + [U32(BreakIndex(stack, targets[|targets| - 1]))]
  }

  lemma EncodeListSnoc(xs: seq<Expr>, x: Expr, ix: Indices, stack: seq<Label>)
    requires ListEncodable(xs, stack) && Encodable(x, stack)
    ensures ListEncodable(xs + [x], stack)
    ensures EncodeList(xs + [x], ix, stack) == EncodeList(xs, ix, stack) + Encode(x, ix, stack)
  {
    assert (xs + [x])[..|xs|] == xs;
  }

  /** The depth the writer's scan finds is the one `BreakIndex` specifies: the
      innermost occurrence is unique. */
  lemma BreakIndexUnique(stack: seq<Label>, name: Label, d: nat)
    requires name in stack && d < |stack| && stack[|stack| - 1 - d] == name
    requires forall j :: |stack| - 1 - d < j < |stack| ==> stack[j] != name
    ensures d == BreakIndex(stack, name)
  {
  }

  // ---------------------------------------------------------------------------
  // Source-map markers

  /** A position in the original source, as a function records it per node. */
  datatype DebugLocation = DebugLocation(fileIndex: nat, lineNumber: nat, columnNumber: nat)

  /** One node visit as the source-map check sees it: the length of the output
      when the node is visited, and the node's recorded location if it has one. */
  datatype NodeVisit = NodeVisit(offset: nat, location: Option<DebugLocation>)

  /** Whether visiting a node writes a marker: only while a source map is being
      written inside a function (`active`), for a node with a recorded location
      that differs from the last one written. */
  predicate WritesMarker(active: bool, location: Option<DebugLocation>, last: DebugLocation)
  {
    active && location.Some? && location.value != last
  }

  /** The (offset, location) markers written over a sequence of visits, starting
      from the last location written before them. A written marker becomes the
      last location. */
  function Markers(active: bool, visits: seq<NodeVisit>, last: DebugLocation): (r: seq<(nat, DebugLocation)>)
    ensures |r| <= |visits|
    ensures !active ==> r == []
    ensures 0 < |r| ==> r[0].1 != last
    ensures forall k :: 0 < k < |r| ==> r[k].1 != r[k - 1].1
  {
    if |visits| == 0 then []
    else if WritesMarker(active, visits[0].location, last) then
      [(visits[0].offset, visits[0].location.value)] + Markers(active, visits[1..], visits[0].location.value)
    else Markers(active, visits[1..], last)
  }

  /** The last location written once the visits are done. */
  function LastAfter(active: bool, visits: seq<NodeVisit>, last: DebugLocation): DebugLocation
  {
    if |visits| == 0 then last
    else if WritesMarker(active, visits[0].location, last) then LastAfter(active, visits[1..], visits[0].location.value)
    else LastAfter(active, visits[1..], last)
  }

  /** The markers of consecutive stretches of visits are the markers of each,
      the second starting from the location the first ended with. */
  lemma {:induction false} MarkersAppend(active: bool, xs: seq<NodeVisit>, ys: seq<NodeVisit>, last: DebugLocation)
    ensures Markers(active, xs + ys, last)
         == Markers(active, xs, last) + Markers(active, ys, LastAfter(active, xs, last))
    ensures LastAfter(active, xs + ys, last) == LastAfter(active, ys, LastAfter(active, xs, last))
    decreases |xs|
  {
    if |xs| > 0 {
      assert (xs + ys)[1..] == xs[1..] + ys;
      var next := if WritesMarker(active, xs[0].location, last) then xs[0].location.value else last;
      MarkersAppend(active, xs[1..], ys, next);
    } else {
      assert xs + ys == ys;
    }
  }

  /** A run of visits that all carry the same location writes exactly one marker,
      at the first of them, when that location is not the last one written, and
      none when it is. */
  lemma {:induction false} RunWritesOnce(visits: seq<NodeVisit>, loc: DebugLocation, last: DebugLocation)
    requires 0 < |visits|
    requires forall k :: 0 <= k < |visits| ==> visits[k].location == Some(loc)
    ensures Markers(true, visits, last) == if loc == last then [] else [(visits[0].offset, loc)]
    ensures LastAfter(true, visits, last) == loc
    decreases |visits|
  {
    if |visits| > 1 {
      RunWritesOnce(visits[1..], loc, loc);
    }
  }

  /** A visit to a node with no recorded location writes nothing and leaves the
      last location alone, wherever it falls among the visits. */
  lemma UnlocatedIgnored(active: bool, xs: seq<NodeVisit>, offset: nat, ys: seq<NodeVisit>, last: DebugLocation)
    ensures Markers(active, xs + [NodeVisit(offset, None)] + ys, last) == Markers(active, xs + ys, last)
  {
    MarkersAppend(active, xs + [NodeVisit(offset, None)], ys, last);
    MarkersAppend(active, xs, [NodeVisit(offset, None)], last);
    MarkersAppend(active, xs, ys, last);
    assert [NodeVisit(offset, None)][1..] == [];
  }

  /** The writer: the output buffer and the stack of labels in scope. */
  class Writer {
    var out: seq<Token>
    var breakStack: seq<Label>
    const ix: Indices

    constructor (ix: Indices)
      ensures this.ix == ix && out == [] && breakStack == []
    {
      this.ix := ix;
      out := [];
      breakStack := [];
    }

    method Recurse(e: Expr)
      requires Encodable(e, breakStack)
      modifies this
      ensures out == old(out) + Encode(e, ix, old(breakStack))
      ensures breakStack == old(breakStack)
      decreases e, 4
    {
      Visit(e);
    }

    /** Emits a node; a block nothing branches to is emitted as its children. */
    method RecursePossibleBlockContents(e: Expr)
      requires ContentsEncodable(e, breakStack)
      modifies this
      ensures out == old(out) + EncodeContents(e, ix, old(breakStack))
      ensures breakStack == old(breakStack)
      decreases e, 5
    {
      if !e.Block? || BrokenTo(e) {
        Recurse(e);
        return;
      }
      RecurseList(e.list);
      if e.ty == unreachable && e.list[|e.list| - 1].ty != unreachable {
        out := out + [Op(UNREACHABLE)];
      }
    }

    /** Dispatches on the kind of node. */
    method Visit(e: Expr)
      requires Encodable(e, breakStack)
      modifies this
      ensures out == old(out) + Encode(e, ix, old(breakStack))
      ensures breakStack == old(breakStack)
      decreases e, 3
    {
      if e.Block? || e.If? || e.Loop? || e.Break? || e.Switch? || e.Return? || e.Nop? || e.Unreachable? {
        VisitControlFlow(e);
      } else if e.Call? || e.CallImport? || e.CallIndirect? || e.GetLocal? || e.SetLocal? || e.GetGlobal?
                || e.SetGlobal? || e.Drop? {
        VisitCallOrVariable(e);
      } else if e.Load? || e.Store? || e.AtomicRMW? || e.AtomicCmpxchg? || e.AtomicWait? || e.AtomicWake?
                || e.Host? {
        VisitMemory(e);
      } else {
        VisitValue(e);
      }
    }

    method VisitControlFlow(e: Expr)
      requires e.Block? || e.If? || e.Loop? || e.Break? || e.Switch? || e.Return? || e.Nop? || e.Unreachable?
      requires Encodable(e, breakStack)
      modifies this
      ensures out == old(out) + Encode(e, ix, old(breakStack))
      ensures breakStack == old(breakStack)
      decreases e, 2
    {
      match e
      case Block(_, _, _) => VisitBlock(e);
      case If(_, _, _, _) => VisitIf(e);
      case Loop(_, _, _) => VisitLoop(e);
      case Break(_, _, _, _) => VisitBreak(e);
      case Switch(_, _, _, _, _, _) => VisitSwitch(e);
      case Return(_, _) => VisitReturn(e);
      case Nop(_) => VisitNop(e);
      case Unreachable(_) => VisitUnreachable(e);
    }

    method VisitCallOrVariable(e: Expr)
      requires e.Call? || e.CallImport? || e.CallIndirect? || e.GetLocal? || e.SetLocal? || e.GetGlobal?
               || e.SetGlobal? || e.Drop?
      requires Encodable(e, breakStack)
      modifies this
      ensures out == old(out) + Encode(e, ix, old(breakStack))
      ensures breakStack == old(breakStack)
      decreases e, 2
    {
      match e
      case Call(_, _, _) => VisitCall(e);
      case CallImport(_, _, _) => VisitCallImport(e);
      case CallIndirect(_, _, _, _) => VisitCallIndirect(e);
      case GetLocal(_, _) => VisitGetLocal(e);
      case SetLocal(_, _, _, _) => VisitSetLocal(e);
      case GetGlobal(_, _) => VisitGetGlobal(e);
      case SetGlobal(_, _, _) => VisitSetGlobal(e);
      case Drop(_, _) => VisitDrop(e);
    }

    method VisitMemory(e: Expr)
      requires e.Load? || e.Store? || e.AtomicRMW? || e.AtomicCmpxchg? || e.AtomicWait? || e.AtomicWake? || e.Host?
      requires Encodable(e, breakStack)
      modifies this
      ensures out == old(out) + Encode(e, ix, old(breakStack))
      ensures breakStack == old(breakStack)
      decreases e, 2
    {
      match e
      case Load(_, _, _, _, _, _, _) => VisitLoad(e);
      case Store(_, _, _, _, _, _, _, _) => VisitStore(e);
      case AtomicRMW(_, _, _, _, _, _) => VisitAtomicRMW(e);
      case AtomicCmpxchg(_, _, _, _, _, _) => VisitAtomicCmpxchg(e);
      case AtomicWait(_, _, _, _, _) => VisitAtomicWait(e);
      case AtomicWake(_, _, _) => VisitAtomicWake(e);
      case Host(_, _, _) => VisitHost(e);
    }

    method VisitValue(e: Expr)
      requires e.Const? || e.Unary? || e.Binary? || e.Select?
      requires Encodable(e, breakStack)
      modifies this
      ensures out == old(out) + Encode(e, ix, old(breakStack))
      ensures breakStack == old(breakStack)
      decreases e, 2
    {
      match e
      case Const(_, _) => VisitConst(e);
      case Unary(_, _, _) => VisitUnary(e);
      case Binary(_, _, _, _) => VisitBinary(e);
      case Select(_, _, _, _) => VisitSelect(e);
    }

    method VisitBlock(e: Expr)
      requires e.Block? && Encodable(e, breakStack)
      modifies this
      ensures out == old(out) + Encode(e, ix, old(breakStack))
      ensures breakStack == old(breakStack)
      decreases e, 1
    {
      ghost var o := out;
      var Block(name, list, ty) := e;
      out := out + [Op(BLOCK), BlockType(Signature(ty))];
      breakStack := breakStack + [name];
      RecurseList(list);
      breakStack := breakStack[..|breakStack| - 1];
      if ty == unreachable {
        out := out + [Op(UNREACHABLE)];
      }
      out := out + [Op(END)];
      if ty == unreachable {
        out := out + [Op(UNREACHABLE)];
      }
      Append5(o, [Op(BLOCK), BlockType(Signature(ty))], EncodeList(list, ix, old(breakStack) + [name]),
        TrailingUnreachable(ty), [Op(END)], TrailingUnreachable(ty));
    }

    method VisitIf(e: Expr)
      requires e.If? && Encodable(e, breakStack)
      modifies this
      ensures out == old(out) + Encode(e, ix, old(breakStack))
      ensures breakStack == old(breakStack)
      decreases e, 1
    {
      ghost var o := out;
      var If(condition, ifTrue, ifFalse, ty) := e;
      Recurse(condition);
      if condition.ty == unreachable {
        // the if itself is never reached
        out := out + [Op(UNREACHABLE)];
        Append2(o, Encode(condition, ix, breakStack), [Op(UNREACHABLE)]);
        return;
      }
      VisitIfArms(e);
      Append6(o, Encode(condition, ix, breakStack), [Op(IF), BlockType(Signature(ty))],
        EncodeContents(ifTrue, ix, breakStack + [ImpossibleContinue]), ElseArm(e, ix, breakStack), [Op(END)],
        TrailingUnreachable(ty));
    }

    /** An if once its condition is written: the signature, the arms, `end`. */
    method VisitIfArms(e: Expr)
      requires e.If? && Encodable(e, breakStack) && e.condition.ty != unreachable
      modifies this
      ensures out == old(out) + [Op(IF), BlockType(Signature(e.ty))]
                     + EncodeContents(e.ifTrue, ix, old(breakStack) + [ImpossibleContinue])
                     + ElseArm(e, ix, old(breakStack)) + [Op(END)] + TrailingUnreachable(e.ty)
      ensures breakStack == old(breakStack)
      decreases e, 0
    {
      var If(_, ifTrue, ifFalse, ty) := e;
      out := out + [Op(IF), BlockType(Signature(ty))];
      breakStack := breakStack + [ImpossibleContinue];
      RecursePossibleBlockContents(ifTrue);
      breakStack := breakStack[..|breakStack| - 1];
      if ifFalse.Some? {
        ghost var p := out;
        out := out + [Op(ELSE)];
        breakStack := breakStack + [ImpossibleContinue];
        RecursePossibleBlockContents(ifFalse.value);
        breakStack := breakStack[..|breakStack| - 1];
        Append2(p, [Op(ELSE)], EncodeContents(ifFalse.value, ix, breakStack + [ImpossibleContinue]));
      }
      out := out + [Op(END)];
      if ty == unreachable {
        out := out + [Op(UNREACHABLE)];
      }
    }

    method VisitLoop(e: Expr)
      requires e.Loop? && Encodable(e, breakStack)
      modifies this
      ensures out == old(out) + Encode(e, ix, old(breakStack))
      ensures breakStack == old(breakStack)
      decreases e, 1
    {
      ghost var o := out;
      var Loop(name, body, ty) := e;
      out := out + [Op(LOOP), BlockType(Signature(ty))];
      breakStack := breakStack + [name];
      RecursePossibleBlockContents(body);
      breakStack := breakStack[..|breakStack| - 1];
      out := out + [Op(END)];
      if ty == unreachable {
        out := out + [Op(UNREACHABLE)];
      }
      Append4(o, [Op(LOOP), BlockType(Signature(ty))], EncodeContents(body, ix, breakStack + [name]),
        [Op(END)], TrailingUnreachable(ty));
    }

    /** The relative depth of the innermost `name` on the label stack, found by
        scanning from the top. */
    method GetBreakIndex(name: Label) returns (d: nat)
      requires name in breakStack
      ensures d < |breakStack| && breakStack[|breakStack| - 1 - d] == name
      ensures forall j :: |breakStack| - 1 - d < j < |breakStack| ==> breakStack[j] != name
      ensures d == BreakIndex(breakStack, name)
    {
      var i := |breakStack| - 1;
      while i >= 0
        invariant -1 <= i < |breakStack|
        invariant forall j :: i < j < |breakStack| ==> breakStack[j] != name
      {
        if breakStack[i] == name {
          d := |breakStack| - 1 - i;
          BreakIndexUnique(breakStack, name, d);
          return;
        }
        i := i - 1;
      }
      assert false;
    }

    method VisitBreak(e: Expr)
      requires e.Break? && Encodable(e, breakStack)
      modifies this
      ensures out == old(out) + Encode(e, ix, old(breakStack))
      ensures breakStack == old(breakStack)
      decreases e, 1
    {
      ghost var o := out;
      var Break(name, optValue, optCondition, ty) := e;
      RecurseOpt(optValue);
      RecurseOpt(optCondition);
      var d := GetBreakIndex(name);
      out := out + [Op(if optCondition.Some? then BR_IF else BR), U32(d)];
      if optCondition.Some? && ty == unreachable {
        out := out + [Op(UNREACHABLE)];
      }
      Append4(o, EncodeOpt(optValue, ix, breakStack), EncodeOpt(optCondition, ix, breakStack),
        [Op(if optCondition.Some? then BR_IF else BR), U32(d)],
        if optCondition.Some? then TrailingUnreachable(ty) else []);
    }

    method VisitSwitch(e: Expr)
      requires e.Switch? && Encodable(e, breakStack)
      modifies this
      ensures out == old(out) + Encode(e, ix, old(breakStack))
      ensures breakStack == old(breakStack)
      decreases e, 1
    {
      ghost var o := out;
      var Switch(targets, defaultTarget, optValue, condition, branchReachable, _) := e;
      RecurseOpt(optValue);
      Recurse(condition);
      if !branchReachable {
        out := out + [Op(UNREACHABLE)];
        Append3(o, EncodeOpt(optValue, ix, breakStack), Encode(condition, ix, breakStack), [Op(UNREACHABLE)]);
        return;
      }
      EmitBranchTable(targets, defaultTarget);
      Append3(o, EncodeOpt(optValue, ix, breakStack), Encode(condition, ix, breakStack),
        [Op(BR_TABLE), U32(|targets|)] + BranchDepths(targets, breakStack) + [U32(BreakIndex(breakStack, defaultTarget))]);
    }

    /** `br_table`: the number of targets, the depth of each target and the
        depth of the default. */
    method EmitBranchTable(targets: seq<Label>, defaultTarget: Label)
      requires defaultTarget in breakStack && forall k :: 0 <= k < |targets| ==> targets[k] in breakStack
      modifies this
      ensures out == old(out) + ([Op(BR_TABLE), U32(|targets|)] + BranchDepths(targets, old(breakStack))
                                 + [U32(BreakIndex(old(breakStack), defaultTarget))])
      ensures breakStack == old(breakStack)
    {
      out := out + [Op(BR_TABLE), U32(|targets|)];
      var i := 0;
      while i < |targets|
        invariant 0 <= i <= |targets| && breakStack == old(breakStack)
        invariant out == old(out) + [Op(BR_TABLE), U32(|targets|)] + BranchDepths(targets[..i], breakStack)
      {
        var d := GetBreakIndex(targets[i]);
        assert targets[..i + 1][..i] == targets[..i];
        out := out + [U32(d)];
        i := i + 1;
      }
      assert targets[..i] == targets;
      var d := GetBreakIndex(defaultTarget);
      out := out + [U32(d)];
      Append3(old(out), [Op(BR_TABLE), U32(|targets|)], BranchDepths(targets, breakStack), [U32(d)]);
    }

    /** Emits an optional operand. */
    method RecurseOpt(o: Option<Expr>)
      requires OptEncodable(o, breakStack)
      modifies this
      ensures out == old(out) + EncodeOpt(o, ix, old(breakStack))
      ensures breakStack == old(breakStack)
      decreases o
    {
      if o.Some? {
        Recurse(o.value);
      }
    }

    /** Emits each operand in turn. */
    method RecurseList(xs: seq<Expr>)
      requires ListEncodable(xs, breakStack)
      modifies this
      ensures out == old(out) + EncodeList(xs, ix, old(breakStack))
      ensures breakStack == old(breakStack)
      decreases xs
    {
      var i := 0;
      while i < |xs|
        invariant 0 <= i <= |xs| && breakStack == old(breakStack)
        invariant out == old(out) + EncodeList(xs[..i], ix, breakStack)
      {
        EncodeListSnoc(xs[..i], xs[i], ix, breakStack);
        Recurse(xs[i]);
        assert xs[..i + 1] == xs[..i] + [xs[i]];
        i := i + 1;
      }
      assert xs[..i] == xs;
    }

    method VisitCall(e: Expr)
      requires e.Call? && Encodable(e, breakStack)
      modifies this
      ensures out == old(out) + Encode(e, ix, old(breakStack))
      ensures breakStack == old(breakStack)
      decreases e, 1
    {
      ghost var o := out;
      var Call(target, operands, ty) := e;
      RecurseList(operands);
      out := out + [Op(CALL), U32(ix.functionIndex(target))];
      if ty == unreachable {
        out := out + [Op(UNREACHABLE)];
      }
      Append3(o, EncodeList(operands, ix, breakStack), [Op(CALL), U32(ix.functionIndex(target))], TrailingUnreachable(ty));
    }

    method VisitCallImport(e: Expr)
      requires e.CallImport? && Encodable(e, breakStack)
      modifies this
      ensures out == old(out) + Encode(e, ix, old(breakStack))
      ensures breakStack == old(breakStack)
      decreases e, 1
    {
      var CallImport(target, operands, _) := e;
      RecurseList(operands);
      out := out + [Op(CALL), U32(ix.functionIndex(target))];
    }

    method VisitCallIndirect(e: Expr)
      requires e.CallIndirect? && Encodable(e, breakStack)
      modifies this
      ensures out == old(out) + Encode(e, ix, old(breakStack))
      ensures breakStack == old(breakStack)
      decreases e, 1
    {
      ghost var o := out;
      var CallIndirect(fullType, operands, callee, ty) := e;
      RecurseList(operands);
      Recurse(callee);
      out := out + [Op(CALL_INDIRECT), U32(ix.functionTypeIndex(fullType)), U32(0)];
      if ty == unreachable {
        out := out + [Op(UNREACHABLE)];
      }
      Append4(o, EncodeList(operands, ix, breakStack), Encode(callee, ix, breakStack),
        [Op(CALL_INDIRECT), U32(ix.functionTypeIndex(fullType)), U32(0)], TrailingUnreachable(ty));
    }

    method VisitGetLocal(e: Expr)
      requires e.GetLocal?
      modifies this
      ensures out == old(out) + [Op(LOCAL_GET), U32(ix.mappedLocal(e.index))]
      ensures breakStack == old(breakStack)
    {
      out := out + [Op(LOCAL_GET), U32(ix.mappedLocal(e.index))];
    }

    method VisitSetLocal(e: Expr)
      requires e.SetLocal? && Encodable(e, breakStack)
      modifies this
      ensures out == old(out) + Encode(e, ix, old(breakStack))
      ensures breakStack == old(breakStack)
      decreases e, 1
    {
      ghost var o := out;
      var SetLocal(index, value, isTee, ty) := e;
      Recurse(value);
      out := out + [Op(if isTee then LOCAL_TEE else LOCAL_SET), U32(ix.mappedLocal(index))];
      if ty == unreachable {
        out := out + [Op(UNREACHABLE)];
      }
      Append3(o, Encode(value, ix, breakStack), [Op(if isTee then LOCAL_TEE else LOCAL_SET), U32(ix.mappedLocal(index))],
        TrailingUnreachable(ty));
    }

    method VisitGetGlobal(e: Expr)
      requires e.GetGlobal?
      modifies this
      ensures out == old(out) + [Op(GLOBAL_GET), U32(ix.globalIndex(e.global))]
      ensures breakStack == old(breakStack)
    {
      out := out + [Op(GLOBAL_GET), U32(ix.globalIndex(e.global))];
    }

    method VisitSetGlobal(e: Expr)
      requires e.SetGlobal? && Encodable(e, breakStack)
      modifies this
      ensures out == old(out) + Encode(e.value, ix, old(breakStack)) + [Op(GLOBAL_SET), U32(ix.globalIndex(e.global))]
      ensures breakStack == old(breakStack)
      decreases e, 1
    {
      Recurse(e.value);
      out := out + [Op(GLOBAL_SET), U32(ix.globalIndex(e.global))];
    }

    /** The alignment exponent and the offset of a memory access. */
    method EmitMemoryAccess(alignment: nat, bytes: nat, offset: nat)
      requires IsPowerOfTwo(if alignment != 0 then alignment else bytes)
      modifies this
      ensures out == old(out) + MemArg(alignment, bytes, offset)
      ensures breakStack == old(breakStack)
    {
      out := out + [U32(Log2(if alignment != 0 then alignment else bytes))];
      out := out + [U32(offset)];
    }

    method VisitLoad(e: Expr)
      requires e.Load? && Encodable(e, breakStack)
      modifies this
      ensures out == old(out) + Encode(e, ix, old(breakStack))
      ensures breakStack == old(breakStack)
      decreases e, 1
    {
      ghost var o := out;
      var Load(bytes, signed, offset, align, isAtomic, ptr, ty) := e;
      Recurse(ptr);
      if !isAtomic {
        if ty == unreachable {
          return;
        }
        out := out + [Op(LoadOpcode(ty, bytes, signed))];
      } else {
        if ty == unreachable {
          out := out + [Op(UNREACHABLE)];
          Append2(o, Encode(ptr, ix, breakStack), [Op(UNREACHABLE)]);
          return;
        }
        out := out + [Atomic(AtomicLoadOpcode(ty, bytes))];
      }
      EmitMemoryAccess(align, bytes, offset);
      Append3(o, Encode(ptr, ix, breakStack),
        [if isAtomic then Atomic(AtomicLoadOpcode(ty, bytes)) else Op(LoadOpcode(ty, bytes, signed))],
        MemArg(align, bytes, offset));
    }

    method VisitStore(e: Expr)
      requires e.Store? && Encodable(e, breakStack)
      modifies this
      ensures out == old(out) + Encode(e, ix, old(breakStack))
      ensures breakStack == old(breakStack)
      decreases e, 1
    {
      ghost var o := out;
      var Store(bytes, offset, align, isAtomic, ptr, value, valueType, ty) := e;
      Recurse(ptr);
      Recurse(value);
      if !isAtomic {
        out := out + [Op(StoreOpcode(valueType, bytes))];
      } else {
        if ty == unreachable {
          out := out + [Op(UNREACHABLE)];
          Append3(o, Encode(ptr, ix, breakStack), Encode(value, ix, breakStack), [Op(UNREACHABLE)]);
          return;
        }
        out := out + [Atomic(AtomicStoreOpcode(valueType, bytes))];
      }
      EmitMemoryAccess(align, bytes, offset);
      Append4(o, Encode(ptr, ix, breakStack), Encode(value, ix, breakStack),
        [if isAtomic then Atomic(AtomicStoreOpcode(valueType, bytes)) else Op(StoreOpcode(valueType, bytes))],
        MemArg(align, bytes, offset));
    }

    /** Visits the operands of an atomic operation in order, stopping after
        the first one that never completes; reports whether all complete. */
    method RecurseStaged(operands: seq<Expr>, ghost parent: Expr) returns (reachable: bool)
      requires forall k :: 0 <= k < |operands| ==> operands[k] < parent
      requires StagedEncodable(operands, breakStack, parent)
      modifies this
      ensures reachable == AllReachable(operands)
      ensures out == old(out) + EncodeStaged(operands, ix, old(breakStack), parent)
      ensures breakStack == old(breakStack)
      decreases parent, 0, 1
    {
      var i := 0;
      reachable := true;
      while i < |operands| && reachable
        invariant 0 <= i <= |Staged(operands)| && breakStack == old(breakStack)
        invariant forall k :: 0 <= k < i ==> Encodable(operands[k], breakStack)
        invariant reachable ==> AllReachable(operands[..i])
        invariant !reachable ==> i == |Staged(operands)| && !AllReachable(operands)
        invariant out == old(out) + EncodeOperands(operands, i, ix, breakStack, parent)
      {
        reachable := RecurseOperand(operands, i, parent, old(out));
        i := i + 1;
      }
      if reachable {
        assert operands[..i] == operands;
      }
    }

    /** Visits operand `i`, which the writer reaches because all operands
        before it complete; reports whether it completes too. */
    method RecurseOperand(operands: seq<Expr>, i: nat, ghost parent: Expr, ghost before: seq<Token>)
      returns (completes: bool)
      requires forall k :: 0 <= k < |operands| ==> operands[k] < parent
      requires StagedEncodable(operands, breakStack, parent)
      requires i < |operands| && AllReachable(operands[..i])
      requires forall k :: 0 <= k < i ==> Encodable(operands[k], breakStack)
      requires out == before + EncodeOperands(operands, i, ix, breakStack, parent)
      modifies this
      ensures i < |Staged(operands)|
      ensures completes ==> AllReachable(operands[..i + 1])
      ensures !completes ==> |Staged(operands)| == i + 1 && !AllReachable(operands)
      ensures breakStack == old(breakStack)
      ensures forall k :: 0 <= k <= i ==> Encodable(operands[k], breakStack)
      ensures out == before + EncodeOperands(operands, i + 1, ix, breakStack, parent)
      decreases parent, 0, 0
    {
      StagedLength(operands, i);
      StagedOperand(operands, i, breakStack, parent);
      Recurse(operands[i]);
      Append2(before, EncodeOperands(operands, i, ix, breakStack, parent), Encode(operands[i], ix, breakStack));
      completes := operands[i].ty != unreachable;
      if completes {
        ReachablePrefix(operands, i);
      }
    }

    method VisitAtomicRMW(e: Expr)
      requires e.AtomicRMW? && Encodable(e, breakStack)
      modifies this
      ensures out == old(out) + Encode(e, ix, old(breakStack))
      ensures breakStack == old(breakStack)
      decreases e, 1
    {
      var AtomicRMW(op, bytes, offset, _, _, ty) := e;
      var reachable := RecurseStaged(Children(e), e);
      if !reachable {
        return;
      }
      if ty == unreachable {
        out := out + [Op(UNREACHABLE)];
        return;
      }
      out := out + [Atomic(AtomicRMWOpcode(op, ty, bytes))];
      EmitMemoryAccess(bytes, bytes, offset);
    }

    method VisitAtomicCmpxchg(e: Expr)
      requires e.AtomicCmpxchg? && Encodable(e, breakStack)
      modifies this
      ensures out == old(out) + Encode(e, ix, old(breakStack))
      ensures breakStack == old(breakStack)
      decreases e, 1
    {
      var AtomicCmpxchg(bytes, offset, _, _, _, ty) := e;
      var reachable := RecurseStaged(Children(e), e);
      if !reachable {
        return;
      }
      if ty == unreachable {
        out := out + [Op(UNREACHABLE)];
        return;
      }
      out := out + [Atomic(AtomicCmpxchgOpcode(ty, bytes))];
      EmitMemoryAccess(bytes, bytes, offset);
    }

    method VisitAtomicWait(e: Expr)
      requires e.AtomicWait? && Encodable(e, breakStack)
      modifies this
      ensures out == old(out) + Encode(e, ix, old(breakStack))
      ensures breakStack == old(breakStack)
      decreases e, 1
    {
      assert Encode(e, ix, breakStack) == EncodeAtomicWait(e, ix, breakStack);
      var reachable := RecurseStaged(Children(e), e);
      if !reachable {
        return;
      }
      ghost var staged := out;
      if e.expectedType == i32 {
        out := out + [Atomic(I32_ATOMIC_WAIT)];
        EmitMemoryAccess(4, 4, 0);
        Append2(staged, [Atomic(I32_ATOMIC_WAIT)], MemArg(4, 4, 0));
      } else {
        out := out + [Atomic(I64_ATOMIC_WAIT)];
        EmitMemoryAccess(8, 8, 0);
        Append2(staged, [Atomic(I64_ATOMIC_WAIT)], MemArg(8, 8, 0));
      }
    }

    method VisitAtomicWake(e: Expr)
      requires e.AtomicWake? && Encodable(e, breakStack)
      modifies this
      ensures out == old(out) + Encode(e, ix, old(breakStack))
      ensures breakStack == old(breakStack)
      decreases e, 1
    {
      var reachable := RecurseStaged(Children(e), e);
      if !reachable {
        return;
      }
      out := out + [Atomic(ATOMIC_WAKE)];
      EmitMemoryAccess(4, 4, 0);
    }

    method VisitConst(e: Expr)
      requires e.Const? && Encodable(e, breakStack)
      modifies this
      ensures out == old(out) + Encode(e, ix, old(breakStack))
      ensures breakStack == old(breakStack)
    {
      match e.literal
      case LitI32(x) => out := out + [Op(I32_CONST), S32(x)];
      case LitI64(x) => out := out + [Op(I64_CONST), S64(x)];
      case LitF32(bits) => out := out + [Op(F32_CONST), F32Bits(bits)];
      case LitF64(bits) => out := out + [Op(F64_CONST), F64Bits(bits)];
    }

    method VisitUnary(e: Expr)
      requires e.Unary? && Encodable(e, breakStack)
      modifies this
      ensures out == old(out) + Encode(e, ix, old(breakStack))
      ensures breakStack == old(breakStack)
      decreases e, 1
    {
      ghost var o := out;
      var Unary(op, value, ty) := e;
      Recurse(value);
      out := out + [Op(UnaryOpcode(op))];
      if ty == unreachable {
        out := out + [Op(UNREACHABLE)];
      }
      Append3(o, Encode(value, ix, breakStack), [Op(UnaryOpcode(op))], TrailingUnreachable(ty));
    }

    method VisitBinary(e: Expr)
      requires e.Binary? && Encodable(e, breakStack)
      modifies this
      ensures out == old(out) + Encode(e, ix, old(breakStack))
      ensures breakStack == old(breakStack)
      decreases e, 1
    {
      ghost var o := out;
      var Binary(op, left, right, ty) := e;
      Recurse(left);
      Recurse(right);
      out := out + [Op(BinaryOpcode(op))];
      if ty == unreachable {
        out := out + [Op(UNREACHABLE)];
      }
      Append4(o, Encode(left, ix, breakStack), Encode(right, ix, breakStack), [Op(BinaryOpcode(op))],
        TrailingUnreachable(ty));
    }

    method VisitSelect(e: Expr)
      requires e.Select? && Encodable(e, breakStack)
      modifies this
      ensures out == old(out) + Encode(e, ix, old(breakStack))
      ensures breakStack == old(breakStack)
      decreases e, 1
    {
      ghost var o := out;
      var Select(ifTrue, ifFalse, condition, ty) := e;
      Recurse(ifTrue);
      Recurse(ifFalse);
      Recurse(condition);
      out := out + [Op(SELECT)];
      if ty == unreachable {
        out := out + [Op(UNREACHABLE)];
      }
      Append5(o, Encode(ifTrue, ix, breakStack), Encode(ifFalse, ix, breakStack), Encode(condition, ix, breakStack),
        [Op(SELECT)], TrailingUnreachable(ty));
    }

    method VisitReturn(e: Expr)
      requires e.Return? && Encodable(e, breakStack)
      modifies this
      ensures out == old(out) + EncodeOpt(e.optValue, ix, old(breakStack)) + [Op(RETURN)]
      ensures breakStack == old(breakStack)
      decreases e, 1
    {
      RecurseOpt(e.optValue);
      out := out + [Op(RETURN)];
    }

    method VisitHost(e: Expr)
      requires e.Host? && Encodable(e, breakStack)
      modifies this
      ensures out == old(out) + Encode(e, ix, old(breakStack))
      ensures breakStack == old(breakStack)
      decreases e, 1
    {
      if e.hostOp == CurrentMemory {
        out := out + [Op(MEMORY_SIZE)];
      } else {
        Recurse(e.operands[0]);
        out := out + [Op(MEMORY_GROW)];
      }
      out := out + [U32(0)];
    }

    method VisitNop(e: Expr)
      requires e.Nop?
      modifies this
      ensures out == old(out) + [Op(NOP)]
      ensures breakStack == old(breakStack)
    {
      out := out + [Op(NOP)];
    }

    method VisitUnreachable(e: Expr)
      requires e.Unreachable?
      modifies this
      ensures out == old(out) + [Op(UNREACHABLE)]
      ensures breakStack == old(breakStack)
    {
      out := out + [Op(UNREACHABLE)];
    }

    method VisitDrop(e: Expr)
      requires e.Drop? && Encodable(e, breakStack)
      modifies this
      ensures out == old(out) + Encode(e.value, ix, old(breakStack)) + [Op(DROP)]
      ensures breakStack == old(breakStack)
      decreases e, 1
    {
      Recurse(e.value);
      out := out + [Op(DROP)];
    }
  }
}
