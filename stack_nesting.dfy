/** The shape of the writer's output: every `block`, `loop` and `if` it writes
    is closed by exactly one `end`, and no `end` closes a construct that was
    not opened. This is the nesting that the structured control instructions
    of section 5.4.1 of the WebAssembly Core Specification 1.0 require, and it
    holds however the unreachable-code rules and block elision cut the output
    short. */
module StackNesting {
  import opened Wasm
  import opened Opcodes
  import opened StackWriter

  /** +1 for a token that opens a construct, -1 for `end`, 0 for any other. */
  function Delta(t: Token): int
  {
    if t == Op(BLOCK) || t == Op(LOOP) || t == Op(IF) then 1
    else if t == Op(END) then -1
    else 0
  }

  /** The number of constructs `ts` leaves open (negative when it closes more
      than it opens). */
  function Open(ts: seq<Token>): int
  {
    if |ts| == 0 then 0 else Open(ts[..|ts| - 1]) + Delta(ts[|ts| - 1])
  }

  /** `ts` can follow a prefix that leaves `k` constructs open: none of its
      prefixes closes more than `k`. */
  predicate Fits(ts: seq<Token>, k: int)
  {
    forall i :: 0 <= i <= |ts| ==> Open(ts[..i]) + k >= 0
  }

  /** Well nested: everything opened is closed, and nothing is closed before
      it is opened. */
  predicate Nested(ts: seq<Token>)
  {
    Open(ts) == 0 && Fits(ts, 0)
  }

  // ---------------------------------------------------------------------------
  // Concatenation

  lemma {:induction false} OpenAppend(a: seq<Token>, b: seq<Token>)
    ensures Open(a + b) == Open(a) + Open(b)
    decreases |b|
  {
    if |b| == 0 {
      assert a + b == a;
    } else {
      assert (a + b)[..|a + b| - 1] == a + b[..|b| - 1];
      OpenAppend(a, b[..|b| - 1]);
    }
  }

  lemma FitsAppend(a: seq<Token>, b: seq<Token>, k: int)
    requires Fits(a, k) && Fits(b, k + Open(a))
    ensures Fits(a + b, k) && Open(a + b) == Open(a) + Open(b)
  {
    OpenAppend(a, b);
    forall i | 0 <= i <= |a + b|
      ensures Open((a + b)[..i]) + k >= 0
    {
      if i <= |a| {
        assert (a + b)[..i] == a[..i];
      } else {
        assert (a + b)[..i] == a + b[..i - |a|];
        OpenAppend(a, b[..i - |a|]);
      }
    }
  }

  /** A well-nested stretch after a prefix changes nothing about what is open. */
  lemma Then(a: seq<Token>, b: seq<Token>)
    requires Fits(a, 0) && Open(a) >= 0 && Nested(b)
    ensures Fits(a + b, 0) && Open(a + b) == Open(a)
  {
    FitsAppend(a, b, 0);
  }

  /** Tokens that neither open nor close anything are well nested. */
  lemma {:induction false} FlatNested(ts: seq<Token>)
    requires forall k :: 0 <= k < |ts| ==> Delta(ts[k]) == 0
    ensures Nested(ts)
    decreases |ts|
  {
    if |ts| > 0 {
      var init := ts[..|ts| - 1];
      assert forall k :: 0 <= k < |init| ==> Delta(init[k]) == 0 by {
        forall k | 0 <= k < |init| ensures Delta(init[k]) == 0 { assert init[k] == ts[k]; }
      }
      FlatNested(init);
      FitsAppend(init, [ts[|ts| - 1]], 0);
      assert init + [ts[|ts| - 1]] == ts;
    }
  }

  /** The opening of a construct leaves one open. */
  lemma Opener(code: byte, t: Type)
    requires code == BLOCK || code == LOOP || code == IF
    ensures Fits([Op(code), BlockType(t)], 0) && Open([Op(code), BlockType(t)]) == 1
  {
    var ts := [Op(code), BlockType(t)];
    assert ts[..0] == [] && ts[..1] == [Op(code)] && ts[..2] == ts;
    assert Open([Op(code)]) == 1 by { assert [Op(code)][..0] == []; }
    assert ts[..|ts| - 1] == [Op(code)];
  }

  /** `end` closes the innermost open construct. */
  lemma Close(a: seq<Token>)
    requires Fits(a, 0) && Open(a) >= 1
    ensures Fits(a + [Op(END)], 0) && Open(a + [Op(END)]) == Open(a) - 1
  {
    assert Open([Op(END)]) == -1 by { assert [Op(END)][..0] == []; }
    assert [Op(END)][..0] == [] && [Op(END)][..1] == [Op(END)];
    FitsAppend(a, [Op(END)], 0);
  }

  lemma TrailingNested(t: Type)
    ensures Nested(TrailingUnreachable(t))
  {
    FlatNested(TrailingUnreachable(t));
  }

  lemma MemArgNested(align: nat, bytes: nat, offset: nat)
    requires IsPowerOfTwo(if align != 0 then align else bytes)
    ensures Nested(MemArg(align, bytes, offset))
  {
    FlatNested(MemArg(align, bytes, offset));
  }

  // ---------------------------------------------------------------------------
  // The writer's output

  /** Everything the writer appends for a node is well nested. */
  lemma {:induction false} EncodeNested(e: Expr, ix: Indices, stack: seq<Label>)
    requires Encodable(e, stack)
    ensures Nested(Encode(e, ix, stack))
    decreases e, 2
  {
    if e.Block? || e.If? || e.Loop? || e.Break? || e.Switch? || e.Return? || e.Nop? || e.Unreachable? {
      ControlFlowNested(e, ix, stack);
    } else if e.Call? || e.CallImport? || e.CallIndirect? || e.GetLocal? || e.SetLocal? || e.GetGlobal?
              || e.SetGlobal? || e.Drop? {
      CallOrVariableNested(e, ix, stack);
    } else if e.Load? || e.Store? || e.AtomicRMW? || e.AtomicCmpxchg? || e.AtomicWait? || e.AtomicWake? || e.Host? {
      MemoryNested(e, ix, stack);
    } else {
      ValueNested(e, ix, stack);
    }
  }

  lemma {:induction false} ControlFlowNested(e: Expr, ix: Indices, stack: seq<Label>)
    requires e.Block? || e.If? || e.Loop? || e.Break? || e.Switch? || e.Return? || e.Nop? || e.Unreachable?
    requires Encodable(e, stack)
    ensures Nested(Encode(e, ix, stack))
    decreases e, 1, 1
  {
    match e
    case Block(_, _, _) => BlockNested(e, ix, stack);
    case If(_, _, _, _) => IfNested(e, ix, stack);
    case Loop(_, _, _) => LoopNested(e, ix, stack);
    case Break(_, _, _, _) => BreakNested(e, ix, stack);
    case Switch(_, _, _, _, _, _) => SwitchNested(e, ix, stack);
    case Return(_, _) => OperandThenNested(e, ix, stack);
    case Nop(_) => FlatNested([Op(NOP)]);
    case Unreachable(_) => FlatNested([Op(UNREACHABLE)]);
  }

  lemma {:induction false} CallOrVariableNested(e: Expr, ix: Indices, stack: seq<Label>)
    requires e.Call? || e.CallImport? || e.CallIndirect? || e.GetLocal? || e.SetLocal? || e.GetGlobal?
             || e.SetGlobal? || e.Drop?
    requires Encodable(e, stack)
    ensures Nested(Encode(e, ix, stack))
    decreases e, 1, 1
  {
    match e
    case Call(_, _, _) => CallNested(e, ix, stack);
    case CallImport(_, _, _) => CallImportNested(e, ix, stack);
    case CallIndirect(_, _, _, _) => CallIndirectNested(e, ix, stack);
    case GetLocal(index, _) => FlatNested([Op(LOCAL_GET), U32(ix.mappedLocal(index))]);
    case SetLocal(_, _, _, _) => SetLocalNested(e, ix, stack);
    case GetGlobal(g, _) => FlatNested([Op(GLOBAL_GET), U32(ix.globalIndex(g))]);
    case SetGlobal(_, _, _) => OperandThenNested(e, ix, stack);
    case Drop(_, _) => OperandThenNested(e, ix, stack);
  }

  lemma {:induction false} MemoryNested(e: Expr, ix: Indices, stack: seq<Label>)
    requires e.Load? || e.Store? || e.AtomicRMW? || e.AtomicCmpxchg? || e.AtomicWait? || e.AtomicWake? || e.Host?
    requires Encodable(e, stack)
    ensures Nested(Encode(e, ix, stack))
    decreases e, 1, 1
  {
    if e.Load? {
      LoadNested(e, ix, stack);
    } else if e.Store? {
      StoreNested(e, ix, stack);
    } else if e.AtomicRMW? {
      AtomicRMWNested(e, ix, stack);
    } else if e.AtomicCmpxchg? {
      AtomicCmpxchgNested(e, ix, stack);
    } else if e.AtomicWait? {
      AtomicWaitNested(e, ix, stack);
    } else if e.AtomicWake? {
      AtomicWakeNested(e, ix, stack);
    } else {
      HostNested(e, ix, stack);
    }
  }

  lemma {:induction false} ValueNested(e: Expr, ix: Indices, stack: seq<Label>)
    requires !(e.Block? || e.If? || e.Loop? || e.Break? || e.Switch? || e.Return? || e.Nop? || e.Unreachable?)
    requires !(e.Call? || e.CallImport? || e.CallIndirect? || e.GetLocal? || e.SetLocal? || e.GetGlobal?
               || e.SetGlobal? || e.Drop?)
    requires !(e.Load? || e.Store? || e.AtomicRMW? || e.AtomicCmpxchg? || e.AtomicWait? || e.AtomicWake? || e.Host?)
    requires Encodable(e, stack)
    ensures Nested(Encode(e, ix, stack))
    decreases e, 1, 1
  {
    match e
    case Const(_, _) => FlatNested(Encode(e, ix, stack));
    case Unary(_, _, _) => UnaryNested(e, ix, stack);
    case Binary(_, _, _, _) => BinaryNested(e, ix, stack);
    case Select(_, _, _, _) => SelectNested(e, ix, stack);
  }

  /** A global write, a drop or a return: its operand, then one instruction
      that opens and closes nothing. */
  lemma {:induction false} OperandThenNested(e: Expr, ix: Indices, stack: seq<Label>)
    requires e.SetGlobal? || e.Drop? || e.Return?
    requires Encodable(e, stack)
    ensures Nested(Encode(e, ix, stack))
    decreases e, 1, 0
  {
    match e
    case SetGlobal(g, value, _) =>
      EncodeNested(value, ix, stack);
      FlatNested([Op(GLOBAL_SET), U32(ix.globalIndex(g))]);
      Then(Encode(value, ix, stack), [Op(GLOBAL_SET), U32(ix.globalIndex(g))]);
    case Drop(value, _) =>
      EncodeNested(value, ix, stack);
      FlatNested([Op(DROP)]);
      Then(Encode(value, ix, stack), [Op(DROP)]);
    case Return(v, _) =>
      OptNested(v, ix, stack);
      FlatNested([Op(RETURN)]);
      Then(EncodeOpt(v, ix, stack), [Op(RETURN)]);
  }

  /** A block's `end` closes the block it opens, whatever its children. */
  lemma {:induction false} BlockNested(e: Expr, ix: Indices, stack: seq<Label>)
    requires e.Block? && Encodable(e, stack)
    ensures Nested(EncodeBlock(e, ix, stack))
    decreases e, 1, 0
  {
    var Block(name, list, ty) := e;
    var open := [Op(BLOCK), BlockType(Signature(ty))];
    var body := EncodeList(list, ix, stack + [name]);
    Opener(BLOCK, Signature(ty));
    ListNested(list, ix, stack + [name]);
    Then(open, body);
    TrailingNested(ty);
    Then(open + body, TrailingUnreachable(ty));
    Close(open + body + TrailingUnreachable(ty));
    Then(open + body + TrailingUnreachable(ty) + [Op(END)], TrailingUnreachable(ty));
  }

  lemma {:induction false} IfNested(e: Expr, ix: Indices, stack: seq<Label>)
    requires e.If? && Encodable(e, stack)
    ensures Nested(EncodeIf(e, ix, stack))
    decreases e, 1, 0
  {
    var If(c, t, f, ty) := e;
    EncodeNested(c, ix, stack);
    if c.ty == unreachable {
      FlatNested([Op(UNREACHABLE)]);
      Then(Encode(c, ix, stack), [Op(UNREACHABLE)]);
    } else {
      var open := Encode(c, ix, stack) + [Op(IF), BlockType(Signature(ty))];
      var ifTrue := EncodeContents(t, ix, stack + [ImpossibleContinue]);
      var ifFalse := ElseArm(e, ix, stack);
      Opener(IF, Signature(ty));
      FitsAppend(Encode(c, ix, stack), [Op(IF), BlockType(Signature(ty))], 0);
      ContentsNested(t, ix, stack + [ImpossibleContinue]);
      Then(open, ifTrue);
      ElseArmNested(e, ix, stack);
      Then(open + ifTrue, ifFalse);
      Close(open + ifTrue + ifFalse);
      TrailingNested(ty);
      Then(open + ifTrue + ifFalse + [Op(END)], TrailingUnreachable(ty));
    }
  }

  lemma {:induction false} ElseArmNested(e: Expr, ix: Indices, stack: seq<Label>)
    requires e.If? && Encodable(e, stack) && e.condition.ty != unreachable
    ensures Nested(ElseArm(e, ix, stack))
    decreases e, 0
  {
    if e.ifFalse.Some? {
      FlatNested([Op(ELSE)]);
      ContentsNested(e.ifFalse.value, ix, stack + [ImpossibleContinue]);
      Then([Op(ELSE)], EncodeContents(e.ifFalse.value, ix, stack + [ImpossibleContinue]));
    } else {
      FlatNested([]);
    }
  }

  lemma {:induction false} LoopNested(e: Expr, ix: Indices, stack: seq<Label>)
    requires e.Loop? && Encodable(e, stack)
    ensures Nested(EncodeLoop(e, ix, stack))
    decreases e, 1, 0
  {
    var Loop(name, body, ty) := e;
    var open := [Op(LOOP), BlockType(Signature(ty))];
    var inner := EncodeContents(body, ix, stack + [name]);
    Opener(LOOP, Signature(ty));
    ContentsNested(body, ix, stack + [name]);
    Then(open, inner);
    Close(open + inner);
    TrailingNested(ty);
    Then(open + inner + [Op(END)], TrailingUnreachable(ty));
  }

  lemma {:induction false} BreakNested(e: Expr, ix: Indices, stack: seq<Label>)
    requires e.Break? && Encodable(e, stack)
    ensures Nested(EncodeBreak(e, ix, stack))
    decreases e, 1, 0
  {
    var Break(name, v, c, ty) := e;
    var operands := EncodeOpt(v, ix, stack) + EncodeOpt(c, ix, stack);
    var branch := [Op(if c.Some? then BR_IF else BR), U32(BreakIndex(stack, name))];
    var tail := if c.Some? then TrailingUnreachable(ty) else [];
    OptNested(v, ix, stack);
    OptNested(c, ix, stack);
    FlatNested(branch);
    FlatNested(tail);
    Then(EncodeOpt(v, ix, stack), EncodeOpt(c, ix, stack));
    Then(operands, branch);
    Then(operands + branch, tail);
  }

  lemma {:induction false} SwitchNested(e: Expr, ix: Indices, stack: seq<Label>)
    requires e.Switch? && Encodable(e, stack)
    ensures Nested(EncodeSwitch(e, ix, stack))
    decreases e, 1, 0
  {
    var Switch(targets, d, v, c, reachable, _) := e;
    var table :=
      if !reachable then [Op(UNREACHABLE)]
      else [Op(BR_TABLE), U32(|targets|)] + BranchDepths(targets, stack) + [U32(BreakIndex(stack, d))];
    OptNested(v, ix, stack);
    EncodeNested(c, ix, stack);
    Then(EncodeOpt(v, ix, stack), Encode(c, ix, stack));
    if reachable {
      BranchTableNested(table, targets, d, stack);
    } else {
      FlatNested(table);
    }
    Then(EncodeOpt(v, ix, stack) + Encode(c, ix, stack), table);
  }

  /** A branch table neither opens nor closes anything. */
  lemma BranchTableNested(table: seq<Token>, targets: seq<Label>, d: Label, stack: seq<Label>)
    requires d in stack && forall k :: 0 <= k < |targets| ==> targets[k] in stack
    requires table == [Op(BR_TABLE), U32(|targets|)] + BranchDepths(targets, stack) + [U32(BreakIndex(stack, d))]
    ensures Nested(table)
  {
    ImmediatesNested(table, BR_TABLE, |targets|, BranchDepths(targets, stack), BreakIndex(stack, d));
  }

  /** An opcode that neither opens nor closes, with only integer immediates. */
  lemma ImmediatesNested(ts: seq<Token>, code: byte, n: nat, depths: seq<Token>, last: nat)
    requires code != BLOCK && code != LOOP && code != IF && code != END
    requires forall k :: 0 <= k < |depths| ==> depths[k].U32?
    requires ts == [Op(code), U32(n)] + depths + [U32(last)]
    ensures Nested(ts)
  {
    forall k | 0 <= k < |ts|
      ensures Delta(ts[k]) == 0
    {
      if 2 <= k < 2 + |depths| {
        assert ts[k] == depths[k - 2];
      }
    }
    FlatNested(ts);
  }


  lemma {:induction false} CallNested(e: Expr, ix: Indices, stack: seq<Label>)
    requires e.Call? && Encodable(e, stack)
    ensures Nested(EncodeCall(e, ix, stack))
    decreases e, 1, 0
  {
    var Call(target, operands, ty) := e;
    var call := [Op(CALL), U32(ix.functionIndex(target))];
    ListNested(operands, ix, stack);
    FlatNested(call);
    TrailingNested(ty);
    Then(EncodeList(operands, ix, stack), call);
    Then(EncodeList(operands, ix, stack) + call, TrailingUnreachable(ty));
  }

  lemma {:induction false} CallImportNested(e: Expr, ix: Indices, stack: seq<Label>)
    requires e.CallImport? && Encodable(e, stack)
    ensures Nested(EncodeCallImport(e, ix, stack))
    decreases e, 1, 0
  {
    var CallImport(target, operands, _) := e;
    var call := [Op(CALL), U32(ix.functionIndex(target))];
    ListNested(operands, ix, stack);
    FlatNested(call);
    Then(EncodeList(operands, ix, stack), call);
  }

  lemma {:induction false} CallIndirectNested(e: Expr, ix: Indices, stack: seq<Label>)
    requires e.CallIndirect? && Encodable(e, stack)
    ensures Nested(EncodeCallIndirect(e, ix, stack))
    decreases e, 1, 0
  {
    var CallIndirect(fullType, operands, callee, ty) := e;
    var values := EncodeList(operands, ix, stack) + Encode(callee, ix, stack);
    var call := [Op(CALL_INDIRECT), U32(ix.functionTypeIndex(fullType)), U32(0)];
    ListNested(operands, ix, stack);
    EncodeNested(callee, ix, stack);
    FlatNested(call);
    TrailingNested(ty);
    Then(EncodeList(operands, ix, stack), Encode(callee, ix, stack));
    Then(values, call);
    Then(values + call, TrailingUnreachable(ty));
  }

  lemma {:induction false} SetLocalNested(e: Expr, ix: Indices, stack: seq<Label>)
    requires e.SetLocal? && Encodable(e, stack)
    ensures Nested(EncodeSetLocal(e, ix, stack))
    decreases e, 1, 0
  {
    var SetLocal(index, value, isTee, ty) := e;
    var write := [Op(if isTee then LOCAL_TEE else LOCAL_SET), U32(ix.mappedLocal(index))];
    EncodeNested(value, ix, stack);
    FlatNested(write);
    TrailingNested(ty);
    Then(Encode(value, ix, stack), write);
    Then(Encode(value, ix, stack) + write, TrailingUnreachable(ty));
  }

  lemma {:induction false} LoadNested(e: Expr, ix: Indices, stack: seq<Label>)
    requires e.Load? && Encodable(e, stack)
    ensures Nested(EncodeLoad(e, ix, stack))
    decreases e, 1, 0
  {
    var Load(bytes, signed, offset, align, isAtomic, ptr, ty) := e;
    EncodeNested(ptr, ix, stack);
    if ty == unreachable {
      FlatNested([Op(UNREACHABLE)]);
      Then(Encode(ptr, ix, stack), [Op(UNREACHABLE)]);
    } else {
      var load := [if isAtomic then Atomic(AtomicLoadOpcode(ty, bytes)) else Op(LoadOpcode(ty, bytes, signed))];
      FlatNested(load);
      MemArgNested(align, bytes, offset);
      Then(Encode(ptr, ix, stack), load);
      Then(Encode(ptr, ix, stack) + load, MemArg(align, bytes, offset));
    }
  }

  lemma {:induction false} StoreNested(e: Expr, ix: Indices, stack: seq<Label>)
    requires e.Store? && Encodable(e, stack)
    ensures Nested(EncodeStore(e, ix, stack))
    decreases e, 1, 0
  {
    var Store(bytes, offset, align, isAtomic, ptr, value, valueType, ty) := e;
    var operands := Encode(ptr, ix, stack) + Encode(value, ix, stack);
    EncodeNested(ptr, ix, stack);
    EncodeNested(value, ix, stack);
    Then(Encode(ptr, ix, stack), Encode(value, ix, stack));
    if isAtomic && ty == unreachable {
      FlatNested([Op(UNREACHABLE)]);
      Then(operands, [Op(UNREACHABLE)]);
    } else {
      var store := [if isAtomic then Atomic(AtomicStoreOpcode(valueType, bytes)) else Op(StoreOpcode(valueType, bytes))];
      FlatNested(store);
      MemArgNested(align, bytes, offset);
      Then(operands, store);
      Then(operands + store, MemArg(align, bytes, offset));
    }
  }

  lemma {:induction false} HostNested(e: Expr, ix: Indices, stack: seq<Label>)
    requires e.Host? && Encodable(e, stack)
    ensures Nested(EncodeHost(e, ix, stack))
    decreases e, 1, 0
  {
    var Host(op, operands, _) := e;
    if op == CurrentMemory {
      FlatNested([Op(MEMORY_SIZE), U32(0)]);
    } else {
      EncodeNested(operands[0], ix, stack);
      FlatNested([Op(MEMORY_GROW), U32(0)]);
      Then(Encode(operands[0], ix, stack), [Op(MEMORY_GROW), U32(0)]);
    }
  }

  /** The operands an atomic operation emits, followed by tokens that open and
      close nothing, are well nested. */
  lemma StagedThenFlat(e: Expr, ix: Indices, stack: seq<Label>, op: seq<Token>)
    requires e.AtomicRMW? || e.AtomicCmpxchg? || e.AtomicWait? || e.AtomicWake?
    requires Encodable(e, stack)
    requires forall k :: 0 <= k < |op| ==> Delta(op[k]) == 0
    ensures StagedEncodable(Children(e), stack, e)
    ensures Nested(EncodeStaged(Children(e), ix, stack, e) + op)
    decreases e, 0
  {
    AtomicStaged(e, stack);
    OperandsNested(Children(e), |Staged(Children(e))|, ix, stack, e);
    FlatNested(op);
    Then(EncodeStaged(Children(e), ix, stack, e), op);
  }

  lemma AtomicRMWNested(e: Expr, ix: Indices, stack: seq<Label>)
    requires e.AtomicRMW? && Encodable(e, stack)
    ensures Nested(EncodeAtomicRMW(e, ix, stack))
    decreases e, 1, 0
  {
    var AtomicRMW(rmw, bytes, offset, _, _, ty) := e;
    var op :=
      if !AllReachable(Children(e)) then []
      else if ty == unreachable then [Op(UNREACHABLE)]
      else [Atomic(AtomicRMWOpcode(rmw, ty, bytes))] + MemArg(bytes, bytes, offset);
    StagedThenFlat(e, ix, stack, op);
  }

  lemma AtomicCmpxchgNested(e: Expr, ix: Indices, stack: seq<Label>)
    requires e.AtomicCmpxchg? && Encodable(e, stack)
    ensures Nested(EncodeAtomicCmpxchg(e, ix, stack))
    decreases e, 1, 0
  {
    var AtomicCmpxchg(bytes, offset, _, _, _, ty) := e;
    var op :=
      if !AllReachable(Children(e)) then []
      else if ty == unreachable then [Op(UNREACHABLE)]
      else [Atomic(AtomicCmpxchgOpcode(ty, bytes))] + MemArg(bytes, bytes, offset);
    StagedThenFlat(e, ix, stack, op);
  }

  lemma AtomicWaitNested(e: Expr, ix: Indices, stack: seq<Label>)
    requires e.AtomicWait? && Encodable(e, stack)
    ensures Nested(EncodeAtomicWait(e, ix, stack))
    decreases e, 1, 0
  {
    var op :=
      if !AllReachable(Children(e)) then []
      else if e.expectedType == i32 then [Atomic(I32_ATOMIC_WAIT)] + MemArg(4, 4, 0)
      else [Atomic(I64_ATOMIC_WAIT)] + MemArg(8, 8, 0);
    StagedThenFlat(e, ix, stack, op);
  }

  lemma AtomicWakeNested(e: Expr, ix: Indices, stack: seq<Label>)
    requires e.AtomicWake? && Encodable(e, stack)
    ensures Nested(EncodeAtomicWake(e, ix, stack))
    decreases e, 1, 0
  {
    var op := if !AllReachable(Children(e)) then [] else [Atomic(ATOMIC_WAKE)] + MemArg(4, 4, 0);
    StagedThenFlat(e, ix, stack, op);
  }

  lemma {:induction false} UnaryNested(e: Expr, ix: Indices, stack: seq<Label>)
    requires e.Unary? && Encodable(e, stack)
    ensures Nested(EncodeUnary(e, ix, stack))
    decreases e, 1, 0
  {
    var Unary(op, value, ty) := e;
    EncodeNested(value, ix, stack);
    FlatNested([Op(UnaryOpcode(op))]);
    TrailingNested(ty);
    Then(Encode(value, ix, stack), [Op(UnaryOpcode(op))]);
    Then(Encode(value, ix, stack) + [Op(UnaryOpcode(op))], TrailingUnreachable(ty));
  }

  lemma {:induction false} BinaryNested(e: Expr, ix: Indices, stack: seq<Label>)
    requires e.Binary? && Encodable(e, stack)
    ensures Nested(EncodeBinary(e, ix, stack))
    decreases e, 1, 0
  {
    var Binary(op, left, right, ty) := e;
    var operands := Encode(left, ix, stack) + Encode(right, ix, stack);
    EncodeNested(left, ix, stack);
    EncodeNested(right, ix, stack);
    FlatNested([Op(BinaryOpcode(op))]);
    TrailingNested(ty);
    Then(Encode(left, ix, stack), Encode(right, ix, stack));
    Then(operands, [Op(BinaryOpcode(op))]);
    Then(operands + [Op(BinaryOpcode(op))], TrailingUnreachable(ty));
  }

  lemma {:induction false} SelectNested(e: Expr, ix: Indices, stack: seq<Label>)
    requires e.Select? && Encodable(e, stack)
    ensures Nested(EncodeSelect(e, ix, stack))
    decreases e, 1, 0
  {
    var Select(t, f, c, ty) := e;
    var values := Encode(t, ix, stack) + Encode(f, ix, stack) + Encode(c, ix, stack);
    EncodeNested(t, ix, stack);
    EncodeNested(f, ix, stack);
    EncodeNested(c, ix, stack);
    FlatNested([Op(SELECT)]);
    TrailingNested(ty);
    Then(Encode(t, ix, stack), Encode(f, ix, stack));
    Then(Encode(t, ix, stack) + Encode(f, ix, stack), Encode(c, ix, stack));
    Then(values, [Op(SELECT)]);
    Then(values + [Op(SELECT)], TrailingUnreachable(ty));
  }

  lemma {:induction false} ListNested(xs: seq<Expr>, ix: Indices, stack: seq<Label>)
    requires ListEncodable(xs, stack)
    ensures Nested(EncodeList(xs, ix, stack))
    decreases xs
  {
    if |xs| == 0 {
      FlatNested([]);
    } else {
      ListNested(xs[..|xs| - 1], ix, stack);
      EncodeNested(xs[|xs| - 1], ix, stack);
      Then(EncodeList(xs[..|xs| - 1], ix, stack), Encode(xs[|xs| - 1], ix, stack));
    }
  }

  lemma {:induction false} OptNested(o: Option<Expr>, ix: Indices, stack: seq<Label>)
    requires OptEncodable(o, stack)
    ensures Nested(EncodeOpt(o, ix, stack))
    decreases o
  {
    if o.Some? {
      EncodeNested(o.value, ix, stack);
    } else {
      FlatNested([]);
    }
  }

  /** The writer's output for an if arm or a loop body, elided block or not,
      is well nested. */
  lemma {:induction false} ContentsNested(e: Expr, ix: Indices, stack: seq<Label>)
    requires ContentsEncodable(e, stack)
    ensures Nested(EncodeContents(e, ix, stack))
    decreases e, 3
  {
    if Elided(e) {
      var tail := if e.ty == unreachable && e.list[|e.list| - 1].ty != unreachable then [Op(UNREACHABLE)] else [];
      ListNested(e.list, ix, stack);
      FlatNested(tail);
      Then(EncodeList(e.list, ix, stack), tail);
    } else {
      EncodeNested(e, ix, stack);
    }
  }

  lemma {:induction false} OperandsNested(xs: seq<Expr>, n: nat, ix: Indices, stack: seq<Label>, parent: Expr)
    requires forall k :: 0 <= k < |xs| ==> xs[k] < parent
    requires n <= |xs| && forall k :: 0 <= k < n ==> Encodable(xs[k], stack)
    ensures Nested(EncodeOperands(xs, n, ix, stack, parent))
    decreases parent, 0, n
  {
    if n == 0 {
      FlatNested([]);
    } else {
      OperandsNested(xs, n - 1, ix, stack, parent);
      EncodeNested(xs[n - 1], ix, stack);
      Then(EncodeOperands(xs, n - 1, ix, stack, parent), Encode(xs[n - 1], ix, stack));
    }
  }
}
