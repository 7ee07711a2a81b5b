# Stack IR and DataFlow IR of Binaryen, in Dafny

This project models three parts of Binaryen, the WebAssembly compiler
toolkit, and proves properties of the model.

- **The Stack IR binary writer** (`src/stack/stack.cpp`). It walks a
  Binaryen expression tree and emits the WebAssembly binary instruction
  stream. Class `StackWriter.Writer` keeps the output and the stack of
  branch labels, as the C++ `Writer` does. Every visit method is proved to
  append exactly `Encode(e)`, a pure function that states the encoding of a
  node. The specification functions come with these lemmas:
  - the branch depth found is the innermost matching label;
  - operands after the first unreachable one are skipped;
  - every encoding is well nested: each `block`, `loop` and `if` is
    closed by one `end`, and no `end` closes more than was opened
    (module `StackNesting`);
  - source-map markers are written once per change of location.

  The opcode tables (module `Opcodes`) are proved one-to-one by decoders.
  The LEB128 immediates (module `Leb128`, section 5.2.2 of the WebAssembly
  Core Specification 1.0) round-trip.
- **The Stack IR linear form and its Builder** (`src/stack/builder.h`).
  A function body becomes one flat sequence of items in stack-machine order.
  An item is a tree node, an end or else marker, or an emptied slot.
  - `Flatten` states what the builder produces.
  - `Reassemble` reads a sequence back into trees, as a stack machine
    would.
  - `FlattenReassembles` proves that reading back the flattening of a tree
    whose operands are all values (`ValueOperands`) gives the tree again.
    `Reassemble` undoes `Flatten`; the converse is not claimed, since
    `Reassemble` also reads sequences that no tree flattens to.
  - `NullingIsRemoval` proves that emptying a slot is the same as deleting
    it.
  - The example in the header comment is proved: with the empty slot, the
    sequence represents the block. With a void call put in that slot, it
    represents no tree.
- **The DataFlow SSA builder** (`src/dataflow/builder.h`). Class
  `DataFlow.Builder` walks flat IR. It keeps, for each control-flow path,
  the node each local holds, and creates Var, constant, expression, phi,
  block, condition and zero-extension nodes. Merges, the loop-phi analysis
  and the comparison flip are proved against pure definitions in module
  `DataFlowSpec`:
  - `Merged`: a Bad local, a shared value, or a phi on a single shared
    block;
  - `Resolve`: the Vars that need no phi are substituted away;
  - `Flip`: the mirrored comparison.
  The walk as a whole is specified by the ghost predicate `Walks`, a
  big-step relation between two snapshots of the builder's state (its
  nodes, the local state, the branch states, the sets and the three maps)
  and the node of the value. It is defined case by case, as the source's
  visitors are, and each visitor is proved to perform exactly the step
  `Walks` states for its kind of expression.

All machine integers are unbounded in the model. Their widths are written
out where they matter (`int32`, `int64` and the bit patterns of floats).

## Model

| member | source | states |
|---|---|---|
| StackWriter.Writer.constructor | src/stack/stack.cpp:31-34 | the writer's implicit initial state, from which `Recurse` starts: an empty output and an empty label stack, over the given index spaces (the class declaration is not part of this model) |
| StackWriter.Writer.Recurse | src/stack/stack.cpp:31-34 | recursing into a node appends exactly its encoding and leaves the label stack as it was |
| StackWriter.Writer.RecursePossibleBlockContents | src/stack/stack.cpp:37-51 | a block that no branch targets is written as its children alone, followed by `unreachable` when the block is unreachable but its last child is not; anything else is written whole |
| StackWriter.Writer.Visit | src/stack/stack.cpp:53-63 | dispatch on the node kind appends the node's encoding; the label stack is restored |
| StackWriter.Writer.VisitControlFlow | src/stack/stack.cpp:65-187 | the control-flow kinds append their encoding |
| StackWriter.Writer.VisitCallOrVariable | src/stack/stack.cpp:189-246 | calls, local and global accesses and drop append their encoding |
| StackWriter.Writer.VisitMemory | src/stack/stack.cpp:253-508 | loads, stores, atomics and host operations append their encoding |
| StackWriter.Writer.VisitValue | src/stack/stack.cpp:510-698 | constants, unary, binary and select append their encoding |
| StackWriter.Writer.VisitBlock | src/stack/stack.cpp:65-88 | `block`, the signature (none for an unreachable block), the children with the block's label pushed, `unreachable` inside and after the `end` when the block is unreachable |
| StackWriter.Writer.VisitIf | src/stack/stack.cpp:94-124 | the condition; when it is unreachable, a trailing `unreachable` and nothing of the arms; otherwise the arms |
| StackWriter.Writer.VisitIfArms | src/stack/stack.cpp:104-123 | `if` with its signature, the true arm as contents under the placeholder label, `else` and the false arm when there is one, `end`, and `unreachable` after it for an unreachable if |
| StackWriter.Writer.VisitLoop | src/stack/stack.cpp:125-137 | `loop`, the signature, the body as contents under the loop's label, `end`, and a trailing `unreachable` for an unreachable loop |
| StackWriter.Writer.GetBreakIndex | src/stack/stack.cpp:139-147 | the depth `d` of the innermost occurrence of the name: the label `d` places from the top is the name and none above it is |
| StackWriter.BreakIndex | src/stack/stack.cpp:139-147 | the specification of the branch depth: in range, naming the label, innermost |
| StackWriter.BreakIndexUnique | src/stack/stack.cpp:139-147 | any depth that names the label with no occurrence above it is the one `BreakIndex` returns |
| StackWriter.Writer.VisitBreak | src/stack/stack.cpp:149-167 | value, condition, `br_if` or `br` with the label's depth, and `unreachable` after a conditional branch of unreachable type |
| StackWriter.Writer.VisitSwitch | src/stack/stack.cpp:169-187 | value and condition; then `unreachable` when the branch cannot be reached, or else `br_table` with the count, the depth of each target and the default's depth |
| StackWriter.Writer.EmitBranchTable | src/stack/stack.cpp:182-186 | `br_table`, the number of targets, each target's depth in order, the default's depth |
| StackWriter.BranchDepths | src/stack/stack.cpp:183-185 | one depth per target, each the target's `BreakIndex` |
| StackWriter.Writer.RecurseOpt | src/stack/stack.cpp:151-153 | an absent optional operand writes nothing, a present one its encoding |
| StackWriter.Writer.RecurseList | src/stack/stack.cpp:71-74 | the encodings of the list's elements, in order |
| StackWriter.EncodeListSnoc | src/stack/stack.cpp:71-74 | the encoding of a list with one more element is the list's encoding followed by that element's |
| StackWriter.Writer.VisitCall | src/stack/stack.cpp:189-198 | the operands, `call` with the function index, and `unreachable` for a call of unreachable type |
| StackWriter.Writer.VisitCallImport | src/stack/stack.cpp:200-206 | the operands and `call` with the import's function index |
| StackWriter.Writer.VisitCallIndirect | src/stack/stack.cpp:208-221 | the operands, the callee, `call_indirect` with the signature index and the reserved zero, and `unreachable` for an unreachable call |
| StackWriter.Writer.VisitGetLocal | src/stack/stack.cpp:223-226 | `local.get` with the mapped local index |
| StackWriter.Writer.VisitSetLocal | src/stack/stack.cpp:228-235 | the value, `local.tee` or `local.set` with the mapped index, and `unreachable` after a write of unreachable type |
| StackWriter.Writer.VisitGetGlobal | src/stack/stack.cpp:237-240 | `global.get` with the global's index |
| StackWriter.Writer.VisitSetGlobal | src/stack/stack.cpp:242-246 | the value, then `global.set` with the global's index |
| StackWriter.Writer.EmitMemoryAccess | src/stack/stack.cpp:248-251 | appends the memory immediate of `MemArg` |
| StackWriter.MemArg | src/stack/stack.cpp:248-251 | two immediates: the base-2 logarithm of the alignment (of the width when the alignment is 0), then the offset |
| Wasm.Log2OfPow2 | src/stack/stack.cpp:249 | the logarithm taken of an alignment inverts the power of two it was |
| StackWriter.Writer.VisitLoad | src/stack/stack.cpp:253-314 | the pointer; then nothing more for a plain load of unreachable type, a lone `unreachable` for an atomic one, and otherwise the plain or atomic opcode for type, width and signedness followed by the memory immediate |
| StackWriter.Writer.VisitStore | src/stack/stack.cpp:316-376 | the pointer and the value; then a lone `unreachable` for an atomic store of unreachable type, and otherwise the plain or atomic opcode for the value type and width followed by the memory immediate |
| StackWriter.Writer.RecurseStaged | src/stack/stack.cpp:378-390 | writes the operands until the first one of unreachable type; reports whether all of them were written |
| StackWriter.Writer.RecurseOperand | src/stack/stack.cpp:378-390 | writing one more operand extends the staged output by that operand; it reports unreachable exactly when this operand ends the stage |
| StackWriter.Staged | src/stack/stack.cpp:378-390 | the operands actually written: a prefix, all of them exactly when none is unreachable, and otherwise ending at the first unreachable one |
| StackWriter.StagedLength | src/stack/stack.cpp:378-390 | an operand after only reachable ones is written; an unreachable one is the last written |
| StackWriter.AtomicStaged | src/stack/stack.cpp:378-508 | every operand an atomic operation writes is encodable |
| StackWriter.Writer.VisitAtomicRMW | src/stack/stack.cpp:378-430 | the staged operands; `unreachable` alone when one is unreachable; otherwise the prefixed read-modify-write opcode for operation, type and width, and the memory immediate |
| StackWriter.Writer.VisitAtomicCmpxchg | src/stack/stack.cpp:432-470 | the same for compare-exchange |
| StackWriter.Writer.VisitAtomicWait | src/stack/stack.cpp:472-496 | the staged operands, then the prefixed `i32.atomic.wait` or `i64.atomic.wait` with a zero offset |
| StackWriter.Writer.VisitAtomicWake | src/stack/stack.cpp:498-508 | the staged operands, then the prefixed `atomic.wake` with a zero offset |
| StackWriter.Writer.VisitConst | src/stack/stack.cpp:510-532 | the const opcode for the type with a signed LEB immediate for integers and the bit pattern for floats |
| StackWriter.Writer.VisitUnary | src/stack/stack.cpp:534-595 | the operand, the unary opcode, and `unreachable` for an unreachable node |
| StackWriter.Writer.VisitBinary | src/stack/stack.cpp:597-687 | both operands, the binary opcode, and `unreachable` for an unreachable node |
| StackWriter.Writer.VisitSelect | src/stack/stack.cpp:689-698 | both values, the condition, `select`, and `unreachable` for an unreachable node |
| StackWriter.Writer.VisitReturn | src/stack/stack.cpp:700-706 | the optional value, then `return` |
| StackWriter.Writer.VisitHost | src/stack/stack.cpp:708-723 | `memory.size`, or the operand and `memory.grow`, each with the reserved zero |
| StackWriter.Writer.VisitNop | src/stack/stack.cpp:725-728 | `nop` |
| StackWriter.Writer.VisitUnreachable | src/stack/stack.cpp:730-733 | `unreachable` |
| StackWriter.Writer.VisitDrop | src/stack/stack.cpp:735-739 | the value, then `drop` |
| StackWriter.Signature | src/stack/stack.cpp:68 | the signature written for a construct is never unreachable, and is the construct's type otherwise |
| StackWriter.Markers | src/stack/stack.cpp:53-63 | the source-map markers of a sequence of visits: none when the source map is off, at most one per visit, the first differs from the last location written, and consecutive markers differ |
| StackWriter.MarkersAppend | src/stack/stack.cpp:53-63 | the markers of two walks one after the other are those of the first, then those of the second from the location the first ended on |
| StackWriter.RunWritesOnce | src/stack/stack.cpp:57-60 | a run of nodes at one location writes a single marker at its first offset, or none if that location was already current |
| StackWriter.UnlocatedIgnored | src/stack/stack.cpp:57-58 | a node without a debug location changes no marker |
| StackNesting.EncodeNested | src/stack/stack.cpp:65-739 | the encoding of every writable node is well nested: `block`, `loop` and `if` opened and closed by `end` in pairs, never closing more than is open |
| StackNesting.ControlFlowNested | src/stack/stack.cpp:65-187 | well nesting for the control-flow kinds |
| StackNesting.CallOrVariableNested | src/stack/stack.cpp:189-246 | well nesting for calls, variable accesses and drop |
| StackNesting.MemoryNested | src/stack/stack.cpp:253-508 | well nesting for memory and atomic accesses and host operations |
| StackNesting.ValueNested | src/stack/stack.cpp:510-739 | well nesting for constants, numeric operators, select, return, nop and unreachable |
| StackNesting.BlockNested | src/stack/stack.cpp:65-88 | a block's encoding is well nested |
| StackNesting.IfNested | src/stack/stack.cpp:94-124 | an if's encoding is well nested, with or without else |
| StackNesting.ElseArmNested | src/stack/stack.cpp:112-116 | the else arm is well nested |
| StackNesting.LoopNested | src/stack/stack.cpp:125-137 | a loop's encoding is well nested |
| StackNesting.BreakNested | src/stack/stack.cpp:149-167 | a branch's encoding is well nested |
| StackNesting.SwitchNested | src/stack/stack.cpp:169-187 | a branch table's encoding is well nested |
| StackNesting.CallNested | src/stack/stack.cpp:189-198 | a call's encoding is well nested |
| StackNesting.CallImportNested | src/stack/stack.cpp:200-206 | a call to an import is well nested |
| StackNesting.CallIndirectNested | src/stack/stack.cpp:208-221 | an indirect call is well nested |
| StackNesting.SetLocalNested | src/stack/stack.cpp:228-235 | a local set or tee is well nested |
| StackNesting.OperandThenNested | src/stack/stack.cpp:242-246 | global set, drop and return, an operand then a flat opcode, are well nested |
| StackNesting.LoadNested | src/stack/stack.cpp:253-314 | a load is well nested |
| StackNesting.StoreNested | src/stack/stack.cpp:316-376 | a store is well nested |
| StackNesting.StagedThenFlat | src/stack/stack.cpp:378-390 | staged operands followed by a flat tail are well nested |
| StackNesting.AtomicRMWNested | src/stack/stack.cpp:378-430 | an atomic read-modify-write is well nested |
| StackNesting.AtomicCmpxchgNested | src/stack/stack.cpp:432-470 | an atomic compare-exchange is well nested |
| StackNesting.AtomicWaitNested | src/stack/stack.cpp:472-496 | an atomic wait is well nested |
| StackNesting.AtomicWakeNested | src/stack/stack.cpp:498-508 | an atomic wake is well nested |
| StackNesting.UnaryNested | src/stack/stack.cpp:534-595 | a unary operator is well nested |
| StackNesting.BinaryNested | src/stack/stack.cpp:597-687 | a binary operator is well nested |
| StackNesting.SelectNested | src/stack/stack.cpp:689-698 | a select is well nested |
| StackNesting.HostNested | src/stack/stack.cpp:708-723 | a host operation is well nested |
| StackNesting.ContentsNested | src/stack/stack.cpp:37-51 | contents written without their block are well nested |
| StackNesting.ListNested | src/stack/stack.cpp:71-74 | a list of well nested encodings is well nested |
| StackNesting.OptNested | src/stack/stack.cpp:151-153 | an optional operand is well nested |
| StackNesting.OperandsNested | src/stack/stack.cpp:378-390 | any number of leading operands is well nested |
| StackNesting.Then | src/stack/stack.cpp:65-88 | a prefix that never closes more than it opened, followed by a well nested part, keeps both properties |
| StackNesting.FlatNested | src/stack/stack.cpp:510-532 | a stream of tokens that neither open nor close is well nested |
| StackNesting.TrailingNested | src/stack/stack.cpp:84-87 | the trailing `unreachable` is well nested |
| StackNesting.MemArgNested | src/stack/stack.cpp:248-251 | a memory immediate is well nested |
| Opcodes.BlockTypeByte | src/stack/stack.cpp:67-68 | the block-type byte is 0x40 exactly for none, and one of the value-type bytes otherwise |
| Opcodes.UnaryOpcode | src/stack/stack.cpp:534-595 | each unary operation's opcode lies in the numeric range and is not a structural opcode |
| Opcodes.UnaryRoundTrip | src/stack/stack.cpp:534-595 | decoding the unary opcode gives back the operation: no two unaries share a byte |
| Opcodes.IntegerUnaryRoundTrip | src/stack/stack.cpp:538-545 | the round trip for the integer bit counts and eqz |
| Opcodes.FloatUnaryRoundTrip | src/stack/stack.cpp:546-559 | the round trip for the float unaries |
| Opcodes.ConversionRoundTrip | src/stack/stack.cpp:560-580 | the round trip for wrap, extend, truncate, convert, demote and promote |
| Opcodes.ReinterpretExtendRoundTrip | src/stack/stack.cpp:581-589 | the round trip for reinterpretations and sign extensions |
| Opcodes.BinaryOpcode | src/stack/stack.cpp:597-687 | each binary operation's opcode lies in the numeric range and is not structural |
| Opcodes.BinaryRoundTrip | src/stack/stack.cpp:597-687 | decoding the binary opcode gives back the operation |
| Opcodes.I32ArithmeticRoundTrip | src/stack/stack.cpp:603-617 | the round trip for i32 arithmetic |
| Opcodes.I32CompareRoundTrip | src/stack/stack.cpp:618-627 | the round trip for i32 comparisons |
| Opcodes.I64ArithmeticRoundTrip | src/stack/stack.cpp:629-643 | the round trip for i64 arithmetic |
| Opcodes.I64CompareRoundTrip | src/stack/stack.cpp:644-653 | the round trip for i64 comparisons |
| Opcodes.F32ArithmeticRoundTrip | src/stack/stack.cpp:655-661 | the round trip for f32 arithmetic |
| Opcodes.F32CompareRoundTrip | src/stack/stack.cpp:662-667 | the round trip for f32 comparisons |
| Opcodes.F64ArithmeticRoundTrip | src/stack/stack.cpp:669-675 | the round trip for f64 arithmetic |
| Opcodes.F64CompareRoundTrip | src/stack/stack.cpp:676-681 | the round trip for f64 comparisons |
| Opcodes.LoadOpcode | src/stack/stack.cpp:253-314 | each valid plain load descriptor has an opcode in the load range |
| Opcodes.LoadRoundTrip | src/stack/stack.cpp:253-314 | decoding a load opcode gives back type, width and signedness |
| Opcodes.StoreOpcode | src/stack/stack.cpp:316-376 | each valid plain store descriptor has an opcode in the store range |
| Opcodes.StoreRoundTrip | src/stack/stack.cpp:316-376 | decoding a store opcode gives back type and width |
| Opcodes.WidthSlot | src/stack/stack.cpp:378-430 | the position of a (type, width) pair in a group of atomic opcodes, below seven |
| Opcodes.WidthSlotInverse | src/stack/stack.cpp:378-430 | the position determines the type and the width |
| Opcodes.AtomicLoadOpcode | src/stack/stack.cpp:282-309 | the atomic load opcodes lie in the atomic load group |
| Opcodes.AtomicStoreOpcode | src/stack/stack.cpp:345-372 | the atomic store opcodes lie in the atomic store group |
| Opcodes.RMWBase | src/stack/stack.cpp:392-428 | the first opcode of each read-modify-write group |
| Opcodes.AtomicRMWOpcode | src/stack/stack.cpp:378-430 | the read-modify-write opcodes lie in their operation's group |
| Opcodes.AtomicCmpxchgOpcode | src/stack/stack.cpp:432-470 | the compare-exchange opcodes lie in their group |
| Opcodes.AtomicLoadRoundTrip | src/stack/stack.cpp:282-309 | decoding an atomic load opcode gives back type and width |
| Opcodes.AtomicStoreRoundTrip | src/stack/stack.cpp:345-372 | decoding an atomic store opcode gives back type and width |
| Opcodes.AtomicRMWRoundTrip | src/stack/stack.cpp:378-430 | decoding a read-modify-write opcode gives back operation, type and width |
| Opcodes.AtomicCmpxchgRoundTrip | src/stack/stack.cpp:432-470 | decoding a compare-exchange opcode gives back type and width |
| Leb128.EncodeUnsigned | src/stack/stack.cpp:156 | an unsigned LEB128 number: continuation bit on every byte but the last |
| Leb128.DecodeUnsigned | src/stack/stack.cpp:156 | the value read consumes at least one and at most all bytes |
| Leb128.UnsignedRoundTrip | src/stack/stack.cpp:156 | decoding an encoded unsigned number, with anything after it, gives back the number and its length |
| Leb128.UnsignedLength | src/stack/stack.cpp:156 | a value below 128^k takes at most k bytes |
| Leb128.U32Length | src/stack/stack.cpp:225 | a 32-bit index takes at most five bytes |
| Leb128.EncodeSigned | src/stack/stack.cpp:514 | a signed LEB128 number: continuation bits, last byte carrying the sign in bit 6 |
| Leb128.DecodeSigned | src/stack/stack.cpp:514 | the signed value read and the bytes it consumes |
| Leb128.SignedRoundTrip | src/stack/stack.cpp:514-518 | decoding an encoded signed number gives it back with its length |
| Leb128.SignedLength | src/stack/stack.cpp:514-518 | a value in [-64·128^(k-1), 64·128^(k-1)) takes at most k bytes |
| Leb128.S32Length | src/stack/stack.cpp:514 | an i32 constant takes at most five bytes |
| Leb128.S64Length | src/stack/stack.cpp:518 | an i64 constant takes at most ten bytes |
| Leb128.LittleEndian | src/stack/stack.cpp:522-526 | `k` bytes, least significant first |
| Leb128.LittleEndianRoundTrip | src/stack/stack.cpp:522-526 | reading the bytes back gives the value |
| Leb128.F32RoundTrip | src/stack/stack.cpp:522 | the four bytes of an f32 constant give back its bit pattern |
| Leb128.F64RoundTrip | src/stack/stack.cpp:526 | the eight bytes of an f64 constant give back its bit pattern |
| StackIR.Builder.constructor | src/stack/builder.h:85-93 | the items are the flattening of the expression, or of its contents when asked for possible block contents; depth 0 |
| StackIR.Builder.Recurse | src/stack/builder.h:95 | appends the flattening of the node |
| StackIR.Builder.RecursePossibleBlockContents | src/stack/builder.h:97-98 | appends the node's contents: a block nothing branches to contributes its children alone |
| StackIR.Builder.Visit | src/stack/builder.h:107 | appends the flattening of the node |
| StackIR.Builder.VisitBlock | src/stack/builder.h:108 | the block, its children, its end marker |
| StackIR.Builder.VisitIf | src/stack/builder.h:109 | the condition, the if, the true arm, else marker and false arm when present, the end marker |
| StackIR.Builder.VisitLoop | src/stack/builder.h:110 | the loop, its body as contents, its end marker |
| StackIR.Builder.VisitOperator | src/stack/builder.h:111-136 | the operands, then the node |
| StackIR.Builder.RecurseList | src/stack/builder.h:108 | the flattenings of the list, in order |
| StackIR.FunctionBodyBuilder | src/stack/builder.h:139-145 | a body is built as possible block contents; for flat operands it reads back to the body's trees |
| StackIR.FlattenReassembles | src/stack/builder.h:28-37 | reading back the items of a node whose operands produce values gives the node, and its contents give their trees |
| StackIR.FlattenRun | src/stack/builder.h:28-37 | running the items of a node from any state pushes the node and leaves the frames alone |
| StackIR.FlattenRunBlock | src/stack/builder.h:33 | the same for a block, closed by its end marker |
| StackIR.FlattenRunLoop | src/stack/builder.h:33 | the same for a loop |
| StackIR.FlattenRunIf | src/stack/builder.h:33-34 | the same for an if, with or without else |
| StackIR.FlattenRunOperator | src/stack/builder.h:31 | the same for an operator: its operands are popped and it is pushed |
| StackIR.FlattenListRun | src/stack/builder.h:31 | a list pushes its elements in order |
| StackIR.FlattenContentsRun | src/stack/builder.h:33 | contents push their trees |
| StackIR.ContentsTrees | src/stack/builder.h:33 | the trees of a body read back as the same arm |
| StackIR.OpenIf | src/stack/builder.h:33-34 | an if pops its condition and opens a frame |
| StackIR.OpenElse | src/stack/builder.h:34 | the else marker saves the true arm |
| StackIR.CloseIf | src/stack/builder.h:33 | the end marker of an if without else rebuilds it |
| StackIR.CloseIfElse | src/stack/builder.h:33-34 | the end marker of an if with else rebuilds both arms |
| StackIR.WithChildrenReplaces | src/stack/builder.h:31 | a node rebuilt on operands has exactly those operands |
| StackIR.WithOwnChildren | src/stack/builder.h:31 | rebuilding a node on its own operands gives the node |
| StackIR.Arm | src/stack/builder.h:33 | an arm is read as the elided block or as a single tree |
| StackIR.Step | src/stack/builder.h:35-37 | an empty slot leaves the reading state unchanged |
| StackIR.RunAppend | src/stack/builder.h:28-29 | reading two sequences one after the other is reading their concatenation |
| StackIR.RunOne | src/stack/builder.h:28-29 | reading a single item is one step |
| StackIR.Strip | src/stack/builder.h:35-37 | removing empty slots leaves no empty slot |
| StackIR.RunStrip | src/stack/builder.h:35-37 | empty slots never change what a sequence reads as |
| StackIR.StripAppend | src/stack/builder.h:35-37 | stripping distributes over concatenation |
| StackIR.StripFull | src/stack/builder.h:35-37 | a sequence without empty slots is unchanged by stripping |
| StackIR.InsertionStrips | src/stack/builder.h:35-37 | an inserted empty slot is removed by stripping |
| StackIR.NullingIsRemoval | src/stack/builder.h:35-37 | emptying a slot reads the same as deleting it |
| StackIR.InsertNothing | src/stack/builder.h:53 | inserting an empty slot does not change what a sequence represents |
| StackIR.ExampleFlatten | src/stack/builder.h:39-52 | the block of the example flattens to block, const, get, add, end |
| StackIR.ExampleValueOperands | src/stack/builder.h:47-52 | the example's operands all produce values |
| StackIR.ExampleIsInsertion | src/stack/builder.h:39-45 | the example sequence is that flattening with an empty slot before the add |
| StackIR.ExampleRepresentsBlock | src/stack/builder.h:46-53 | the example sequence represents the block |
| StackIR.ExampleWithVoidCall | src/stack/builder.h:53-67 | with a void call in the empty slot the sequence represents no tree |
| StackIR.VoidCallHead | src/stack/builder.h:53-57 | the state after reading up to the void call |
| StackIR.RunLeaves | src/stack/builder.h:39-45 | three leaves read as themselves |
| StackIR.StepLeaf | src/stack/builder.h:31 | a leaf is pushed |
| StackIR.RunSnoc | src/stack/builder.h:28-29 | reading a sequence with one more item is one more step |
| StackIR.FlattenLeaf | src/stack/builder.h:31 | a leaf flattens to itself |
| DataFlow.Builder.constructor | src/dataflow/builder.h:99-118 | a function with no locals builds nothing; otherwise the state on entry (`start`) holds, per local, a Var for a parameter of relevant type, Bad for another parameter, and a zero constant for a variable, with nothing recorded, and the final state is the walk of the body from it (`Walks`) |
| DataFlow.Builder.SetUpLocals | src/dataflow/builder.h:104-115 | one node per local: a Var for a parameter of relevant type, Bad for an irrelevant one, a zero constant for a variable |
| DataFlow.Builder.AddNode | src/dataflow/builder.h:135-138 | the node is appended and referenced by its position |
| DataFlow.Builder.AddValue | src/dataflow/builder.h:150-151 | one operand is appended to one node and nothing else changes |
| DataFlow.Builder.MakeVar | src/dataflow/builder.h:121-127 | `UnknownValue`: a new Var for an integer type, only the nodes changing; Bad and nothing changed otherwise |
| DataFlow.Builder.MakeZero | src/dataflow/builder.h:129-132 | a new constant node holding the zero of the type |
| DataFlow.Builder.MakeZeroComp | src/dataflow/builder.h:140-153 | `ZeroCompared`: a comparison with zero of the node's type, on the node (extended if one-bit) and a new zero constant, only nodes being appended |
| DataFlow.Builder.ExpandFromI1 | src/dataflow/builder.h:638-643 | `Expanded`: a one-bit node is wrapped in one new zero extension; anything else, Bad included, is returned as is with nothing changed |
| DataFlow.Builder.EnsureI1 | src/dataflow/builder.h:645-650 | `AsCondition`: Bad and one-bit nodes are returned as is with nothing changed; any other node becomes a not-equal test of it against a new zero constant of its type |
| DataFlow.Builder.SetInUnreachable | src/dataflow/builder.h:166-168 | the local state becomes empty |
| DataFlow.Builder.SetInReachable | src/dataflow/builder.h:170-172 | the local state gets one entry per local, keeping a reachable state as it is |
| DataFlow.Builder.IsInUnreachable | src/dataflow/builder.h:174-180 | in a consistent builder over a function with locals, a path is reachable exactly when its state holds one node per local |
| DataFlow.Builder.Merge | src/dataflow/builder.h:575-634 | unreachable paths are dropped; none leaves the state, one gives its state, several give per local Bad, the shared node, or a phi, all phis on one block; no phi needed means no node added |
| DataFlow.Builder.MergeLocals | src/dataflow/builder.h:596-633 | the per-local merge of two or more reachable paths |
| DataFlow.Builder.MergeLocal | src/dataflow/builder.h:597-632 | local `i` is merged; the block is created at the first local that needs a phi and shared after |
| DataFlow.Builder.MergePhi | src/dataflow/builder.h:609-631 | a local that needs a phi gets one on the shared block |
| DataFlow.Builder.MakeBlock | src/dataflow/builder.h:615-624 | a block node with one entry per path: Bad, or a condition node for that path |
| DataFlow.Builder.MakePhi | src/dataflow/builder.h:625-629 | a phi on the block with each path's value, extended if one-bit |
| DataFlow.Builder.MergeIf | src/dataflow/builder.h:543-562 | `IfMerged`: only nodes, the local state and the conditions change, nodes are only appended, and `ArmsMerged` holds: with a Bad condition, a plain merge of the two states; otherwise the condition as a one-bit value (itself if one-bit, else a not-equal-zero test) and its equal-zero test are appended to the conditions of the if, and each arm is merged under its own; no other condition entry changes |
| DataFlow.Builder.MakeIfConditions | src/dataflow/builder.h:547-553 | the true condition (the condition itself when one-bit, else its not-equal-zero test) and its equal-zero test are recorded for the if, in that order |
| DataFlow.Builder.MergeBlock | src/dataflow/builder.h:565-572 | the states of a block merged without conditions |
| DataFlow.Builder.Visit | src/dataflow/builder.h:186-530 | the result and the new state are a walk of `e` from the old state (`Walks`, defined case by case below); every visit keeps references valid, restores the parent, keeps a reachable path reachable over an operand that cannot end it, and changes the parent and conditions of no tree node outside the one visited; control flow has no value |
| DataFlow.Builder.VisitControl | src/dataflow/builder.h:188-530 | `Walks` for control flow: no value; return and unreachable empty the state and change nothing else; a branch appends the state to its target's list and an unconditional one empties it; a switch appends it once per distinct target and the default and empties it; blocks, ifs and loops as in their rows |
| DataFlow.Builder.VisitOperation | src/dataflow/builder.h:326-530 | `Walks` for operations: a call, global get or load is an unknown value (a fresh Var of its type, or Bad with no node); a constant is a new node of itself; a get is the local's node with nothing changed; global sets, stores, atomics, drop, host and nop are Bad and change nothing; sets, unary, binary and select as in their rows |
| DataFlow.Builder.VisitExpanded | src/dataflow/builder.h:390 | `WalksExpanded`: the operand is walked (`Walks`) to some state and node, then a one-bit node gets one new zero extension, which is the result, and any other node is the result with nothing more added |
| DataFlow.Builder.VisitBlock | src/dataflow/builder.h:188-209 | `WalksBlock`: the block's parent is recorded, its children are walked in order from there (`WalksList`), then for a named block with recorded branches the state falling out of the end is appended to them and all are merged into the outgoing state (`BlockEnded`), and the parent is restored; no value |
| DataFlow.Builder.VisitList | src/dataflow/builder.h:193-195 | `WalksList`: the block's children walked in order, each from the state the one before left |
| DataFlow.Builder.EndBlock | src/dataflow/builder.h:198-206 | `BlockEnded`: for a name with recorded branch states, the current state is appended to them and all are merged, only nodes, the local state and that name's list changing; nothing changes for any other name |
| DataFlow.Builder.VisitIf | src/dataflow/builder.h:210-231 | `WalksIf`: the parent is recorded, the condition is walked from there, then the arms (`ArmsWalk`), and the parent is restored; no value |
| DataFlow.Builder.VisitArms | src/dataflow/builder.h:218-228 | `ArmsWalk`: the true arm is walked from the state after the condition; without a false arm, `IfMerged` of the state after the condition and the state after the true arm; otherwise the false arm follows (`ElseWalk`) |
| DataFlow.Builder.VisitElse | src/dataflow/builder.h:221-225 | `ElseWalk`: the false arm is walked from the true arm's final state with the saved local state put back, and `IfMerged` holds of the true arm's locals and the false arm's |
| DataFlow.Builder.VisitLoop | src/dataflow/builder.h:232-306 | `WalksLoop`: an unnamed loop, or one entered unreachably, is a walk of its body; a named one gives every local a fresh Var (`LoopEntered`), walks its body from there, and the loop's nodes and the outgoing state become `Resolve` of those the body left, under the states recorded for the loop's name (`LoopEnded`); no value |
| DataFlow.Builder.VisitNamedLoop | src/dataflow/builder.h:250-306 | a named loop entered reachably: `LoopEntered`, then the body walked, then `LoopEnded`, from the state on entry |
| DataFlow.Builder.MakeLoopVars | src/dataflow/builder.h:255-257 | `LoopEntered`: each local becomes a fresh Var, or Bad for an irrelevant type, in order, and only nodes and the local state change |
| DataFlow.Builder.ResolveLoop | src/dataflow/builder.h:267-304 | the nodes are `ResolvedNodes` of what they were (the loop's nodes resolved, older nodes untouched) and the outgoing state is `Resolve` of what it was |
| DataFlow.Builder.ResolveLocal | src/dataflow/builder.h:268-303 | for one local, nothing changes if it needs a phi; otherwise its Var is replaced by the previous value in the loop's nodes and the state |
| DataFlow.Builder.SubstituteValues | src/dataflow/builder.h:289-295 | one node's operands with the Var replaced |
| DataFlow.Builder.SubstituteLocals | src/dataflow/builder.h:298-302 | the state with the Var replaced |
| DataFlow.Builder.VisitBreak | src/dataflow/builder.h:307-313 | the state is recorded for the target; an unconditional branch makes the path unreachable; nothing else changes |
| DataFlow.Builder.RecordState | src/dataflow/builder.h:308 | one state appended to one target's list |
| DataFlow.Builder.VisitSwitch | src/dataflow/builder.h:314-325 | the state is recorded once for each distinct target and the default, then the path is unreachable |
| DataFlow.Builder.RecordAll | src/dataflow/builder.h:320-322 | the state appended once for each target of a set |
| DataFlow.Builder.VisitGetLocal | src/dataflow/builder.h:335-341 | the node of the local, or Bad for an irrelevant local or an unreachable path |
| DataFlow.Builder.VisitSetLocal | src/dataflow/builder.h:342-351 | `WalksSetLocal`: nothing changes for an untracked local or an unreachable path; otherwise the set is appended to the sets and its parent recorded, its value is walked from there, and the local and the set's map entry both become the value's node; no value |
| DataFlow.Builder.VisitUnary | src/dataflow/builder.h:379-411 | `WalksUnary`: bit counts walk the operand as a value of its wasm type (`WalksExpanded`) and append an expression node on its node; eqz walks it likewise and appends an equal test of that node against a new zero (`ZeroCompared`); both are Bad, adding nothing more, when the operand is; anything else is an unknown value with the operand not walked |
| DataFlow.Builder.VisitBinary | src/dataflow/builder.h:412-498 | `WalksBinary`: a supported operator is `SupportedWalks`; a greater-than form is the walk of the mirrored comparison on the swapped operands; anything else is an unknown value with the operands not walked |
| DataFlow.Builder.VisitSupportedBinary | src/dataflow/builder.h:455-467 | `SupportedWalks`: the left operand is walked as a value of its wasm type; if it has no node the result is Bad and the right operand is not walked; otherwise `RightWalks` |
| DataFlow.Builder.VisitRightOperand | src/dataflow/builder.h:461-467 | `RightWalks`: the right operand is walked as a value of its wasm type; Bad if it has no node, else one expression node is appended on the left and right nodes and is the result |
| DataFlow.Builder.VisitSelect | src/dataflow/builder.h:499-512 | `WalksSelect`: the true value is walked as a value of its wasm type; Bad if it has no node, else the rest is `FalseValueWalks` |
| DataFlow.Builder.VisitSelectFalse | src/dataflow/builder.h:502-503 | `FalseValueWalks`: the false value is walked as a value of its wasm type; Bad if it has no node, else the rest is `SelectConditionWalks` |
| DataFlow.Builder.VisitSelectCondition | src/dataflow/builder.h:504-511 | `SelectConditionWalks`: the condition is walked and made a one-bit value (`AsCondition`); Bad if it has no node, else one expression node is appended on the condition and both values and is the result |
| DataFlowSpec.Live | src/dataflow/builder.h:577-580 | the reachable states: each kept one is reachable and from the input, and every reachable input is kept |
| DataFlowSpec.LiveOk | src/dataflow/builder.h:577-580 | reachable states hold one node per local |
| DataFlowSpec.Substitute | src/dataflow/builder.h:289-302 | replacing keeps the length |
| DataFlowSpec.SubstituteRemoves | src/dataflow/builder.h:289-302 | each entry equal to the Var becomes the value, others are kept, and the Var is gone |
| DataFlowSpec.SubstituteIdempotent | src/dataflow/builder.h:289-302 | replacing twice is replacing once |
| DataFlowSpec.SubstituteOk | src/dataflow/builder.h:289-302 | replacing keeps references valid |
| DataFlowSpec.SubstituteKeepsOut | src/dataflow/builder.h:289-302 | replacing introduces nothing but the value |
| DataFlowSpec.Resolve | src/dataflow/builder.h:267-304 | the undoing of every Var that needs no phi keeps the length |
| DataFlowSpec.ResolveRemoves | src/dataflow/builder.h:282-303 | a Var that needs no phi is gone afterwards |
| DataFlowSpec.ResolveKeeps | src/dataflow/builder.h:282-303 | a reference that is no loop Var is kept |
| DataFlowSpec.LoopPhisAsWritten | src/dataflow/builder.h:267-281 | the phi test as written, undefined (None) when it reads an empty state |
| DataFlowSpec.LoopPhisAgree | src/dataflow/builder.h:267-281 | when every state is full, the test as written gives `LoopNeedsPhi` for every local |
| DataFlowSpec.LoopEnteredUnreachable | src/dataflow/builder.h:253-257 | a loop entered from unreachable code reads an empty state |
| DataFlowSpec.LoopBranchFromUnreachable | src/dataflow/builder.h:274-276 | a branch from unreachable code gives an empty state that the test reads |
| DataFlowSpec.LoopUndoesBad | src/dataflow/builder.h:255-302 | for a variable of an untracked type the loop's Var is Bad and its previous value a zero constant, so when no path needs a phi every Bad in the loop's state becomes that constant |
| DataFlowSpec.RecordedAllStep | src/dataflow/builder.h:320-322 | recording one more target is one more update |
| DataFlowSpec.Distinct | src/dataflow/builder.h:315-319 | the set of targets holds exactly the targets listed |
| DataFlowSpec.FlipAsWritten | src/dataflow/builder.h:480-490 | the operator the source picks for a greater-than form: a less-than form of the same width |
| DataFlowSpec.FlipAsWrittenDiffers | src/dataflow/builder.h:480-491 | that operator on swapped operands disagrees with the original when both operands are equal |
| DataFlowSpec.Flip | src/dataflow/builder.h:469-492 | the mirrored operator: greater-than to less-than, greater-or-equal to less-or-equal, same signedness and width |
| DataFlowSpec.FlipMirrors | src/dataflow/builder.h:469-492 | the mirrored operator on swapped operands agrees with the original on all operands |
| DataFlowSpec.FlipSupported | src/dataflow/builder.h:415-492 | the mirrored operator is supported and the original is not, so the flip is visited once |
| DataFlowSpec.SupportedNotGreater | src/dataflow/builder.h:415-468 | no supported operator is a greater-than form |
| DataFlowSpec.ZeroTest | src/dataflow/builder.h:140-144 | the equal or not-equal comparison of the node's width |
| DataFlowSpec.EndsOrControl | src/dataflow/builder.h:307-325 | branches, switches, returns, unreachable and control flow are not operands that keep a path reachable |
| DataFlowSpec.ExpandsGrow | src/dataflow/builder.h:638-643 | an extension stays valid as nodes are appended |
| DataFlowSpec.ZeroCompGrow | src/dataflow/builder.h:140-153 | a test against zero stays valid as nodes are appended |
| DataFlowSpec.BlockForGrow | src/dataflow/builder.h:615-624 | a merge block stays valid as nodes are appended |
| DataFlowSpec.PhiForGrow | src/dataflow/builder.h:625-629 | a phi stays valid as nodes are appended |
| DataFlowSpec.MergedLocalGrow | src/dataflow/builder.h:596-633 | a merged local stays valid as nodes are appended |
| DataFlowSpec.ExpandsUpdate | src/dataflow/builder.h:289-295 | substituting operands does not break an extension |
| DataFlowSpec.NodesAppend | src/dataflow/builder.h:135-138 | appending a node that refers to earlier nodes keeps the list consistent |
| DataFlowSpec.NodesUpdate | src/dataflow/builder.h:289-295 | updating a node's operands to earlier nodes keeps the list consistent |

## Left out

- Debug output is not modelled: the `std::cerr` trace of the writer and the `std::cout` banner of the DataFlow builder.
- Source maps. The Writer class does not carry the marker side channel. The markers are a function of the sequence of visits (`Markers`). `writeDebugLocation` is not part of this model; `Markers` assumes that writing a marker makes its location the last one written.
- `BranchUtils::BranchSeeker::hasNamed` is defined as a recursive search (`HasNamed`). `BranchUtils::isBranchReachable` is a field of the switch node.
- The index spaces are total functions (`Indices`): function, global and signature indices, and the local mapping.
- The writer aborts on a branch to a label that is not on the stack, and on unsupported descriptors. The model turns these into the precondition `Encodable`, which admits exactly the inputs the writer accepts.
- The comment at stack.cpp:35 says a block is written as its contents when it has no name. The code at stack.cpp:38 tests `brokenTo` instead, so a named block that no branch targets is written as its contents too. The model follows the code (`RecursePossibleBlockContents`).
- In stack.cpp, `brokenTo` is used before its definition. The Stack IR constructor names `possibleBlockContent` and `curr`, which are undefined. `FunctionBodyBuilder` calls a base constructor in its body. The model gives each of these its evident meaning.
- The visitor bodies of the Stack IR Builder are not in builder.h. The model defines them after the order of the writer and the item list described at builder.h:28-37.
- StackIR: the end marker of a loop (`LoopEnd`) is added to the item list, since a loop needs one to be read back.
- StackIR.Builder: `depth` and `breakStack` are kept and stated unchanged, but nothing uses them.
- `BinaryConsts` is not part of this model. The opcode values are taken from the WebAssembly Core Specification 1.0, the threads proposal and the sign-extension-operators proposal.
- Floating point is not modelled: constants are their bit patterns.
- The semantics of atomic operations are not modelled.
- The writer visits atomic operands in a loop, which is modelled as `RecurseStaged` over the operand sequence.
- DataFlow: `Node::returnsI1` and the type of a node are foreign code. They are parameters of the builder. Every node's type is assumed to be an integer, so the abort in `getUnused` on other types is not reached.
- DataFlow: nodes are compared by reference (`Ref`). The C++ `operator!=` on node contents in visitLoop is read as identity.
- DataFlow: the maps keyed by `Expression*` (`parentMap`, `setNodeMap`, `expressionConditionMap`) are keyed by the expression value. Two equal subtrees share an entry.
- DataFlow.Builder.Merge, MergeIf, EndBlock, MakeZeroComp, EnsureI1: the merge and zero-test contracts (`Merged`, `ArmsMerged`, `ZeroCompFor`) say what the merged locals, the phis, the merge block, its condition nodes and the test are, and that nodes are only appended; they do not fix the exact list of nodes appended. `Walks` inherits this for blocks, ifs, loops, eqz and one-bit conditions; every other step of it fixes the new state exactly.
- DataFlowSpec.WellFormed: flat IR is assumed, as the comment at builder.h:517 does. The value of a set is an operand that never ends its path, so a `local.set` of an `unreachable` or of a `br` is outside the model. On such input the source would write into the emptied state of an unreachable path.
- DataFlowSpec.LoopUndoesBad: a variable of an untracked type starts as a zero constant (builder.h:108-114), while its loop Var is Bad (builder.h:256). When no path into a named loop needs a phi for it, the undo at builder.h:283-302 replaces every Bad in the loop's nodes and in the outgoing state by that constant. This includes the Bad conditions of merge blocks. The model does what the code does, and the lemma exhibits it.
- DataFlow.Builder.SetInReachable: the new entries of a state that was empty are placeholders (Bad). In the source they are null pointers that the merge overwrites.
- DataFlow.Builder.MakeIfConditions: both conditions are appended to the map in one update, after both nodes are made.
- DataFlow: `visitDrop`, `visitSetGlobal`, `visitStore`, the atomics, `visitHost` and `visitNop` return Bad; they are one case of `VisitOperation`.
- DataFlow: the arena for extra expressions (`MixedArena extra`) and memory ownership are not modelled.

## Findings

| source | as written | input that shows it | evidently intended | confidence | as-written member | corrected member |
|---|---|---|---|---|---|---|
| src/dataflow/builder.h:481-488 | `a > b` is rewritten as `b <= a`, and `a >= b` as `b < a` | `a == b`: `a > b` is false but `b <= a` is true | `a > b` as `b < a`, and `a >= b` as `b <= a` | high, not executed | DataFlowSpec.FlipAsWrittenDiffers | DataFlowSpec.FlipMirrors |
| src/dataflow/builder.h:253-281 | a named loop writes `locals[i]` and reads `other[i]` even when that state is empty | a loop reached only from unreachable code (`locals` empty), or a `br` to the loop from unreachable code (an empty break state) | unreachable states are skipped, as `merge` skips them | medium, not executed | DataFlowSpec.LoopBranchFromUnreachable | DataFlowSpec.LoopPhisAgree |
