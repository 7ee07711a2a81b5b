/** Stack IR: a function body as one flat sequence in stack-machine order.
    Each item is a reference to a tree node, a marker the tree has no node for
    (the end of a block, loop or if, and the else of an if), or nothing: a
    slot whose node was removed. Operands come before the node that consumes
    them; a block, loop or if appears where it opens, and its marker where it
    closes.

    `Flatten` is the specification of the builder; `Reassemble` reads a
    sequence back into trees, popping each node's operands off a value stack
    as a stack machine would. `FlattenReassembles` shows that reading back
    the flattening of a tree whose operands are all values gives the tree
    again (`Reassemble` undoes `Flatten`; it also reads sequences that no
    tree flattens to), and `NullingIsRemoval` that emptying a slot is the
    same as deleting it. */
module StackIR {
  import opened Wasm
  import opened Sequences

  datatype Marker = BlockEnd | LoopEnd | IfElse | IfEnd

  datatype Item =
    | Node(e: Expr)       // a reference to a node of the tree
    | Custom(m: Marker)   // a structural marker
    | Nothing             // an emptied slot

  predicate IsControl(e: Expr)
  {
    e.Block? || e.If? || e.Loop?
  }

  /** Whether a block in the position of a whole body, an if arm or a loop
      body is written as its children alone: no branch can target it. */
  predicate Elided(e: Expr)
  {
    e.Block? && !BrokenTo(e)
  }

  // ---------------------------------------------------------------------------
  // The linear form of a tree

  /** The items of a node: its operands, then the node; or, for a block, loop
      or if, the node, its body and its end marker (an if's condition first). */
  function Flatten(e: Expr): seq<Item>
    decreases e, 1
  {
    match e
    case Block(_, list, _) => [Node(e)] + FlattenList(list, e) + [Custom(BlockEnd)]
    case Loop(_, body, _) => [Node(e)] + FlattenContents(body) + [Custom(LoopEnd)]
    case If(c, t, f, _) =>
      Flatten(c) + [Node(e)] + FlattenContents(t)
      + (if f.Some? then [Custom(IfElse)] + FlattenContents(f.value) else [])
      + [Custom(IfEnd)]
    case _ => FlattenList(Children(e), e) + [Node(e)]
  }

  /** The items of `xs`, children of `parent`, one after the other. */
  function FlattenList(xs: seq<Expr>, parent: Expr): seq<Item>
    requires forall k :: 0 <= k < |xs| ==> xs[k] < parent
    decreases parent, 0, |xs|
  {
    if |xs| == 0 then [] else FlattenList(xs[..|xs| - 1], parent) + Flatten(xs[|xs| - 1])
  }

  /** The items of a node in the position of a body: a block nothing branches
      to contributes its children alone. */
  function FlattenContents(e: Expr): seq<Item>
    decreases e, 2
  {
    if Elided(e) then FlattenList(e.list, e) else Flatten(e)
  }

  // ---------------------------------------------------------------------------
  // Reading a sequence back

  /** A node with its operands replaced by `kids`, in the order `Children`
      lists them. */
  function WithChildren(e: Expr, kids: seq<Expr>): (r: Expr)
    requires !IsControl(e) && |kids| == |Children(e)|
  {
    match e
    case Break(name, v, c, ty) =>
      Break(name, if v.Some? then Some(kids[0]) else None, if c.Some? then Some(kids[|kids| - 1]) else None, ty)
    case Switch(targets, d, v, _, reachable, ty) =>
      Switch(targets, d, if v.Some? then Some(kids[0]) else None, kids[|kids| - 1], reachable, ty)
    case Call(target, _, ty) => Call(target, kids, ty)
    case CallImport(target, _, ty) => CallImport(target, kids, ty)
    case CallIndirect(fullType, _, _, ty) =>
      assert kids == kids[..|kids| - 1] + [kids[|kids| - 1]];
      CallIndirect(fullType, kids[..|kids| - 1], kids[|kids| - 1], ty)
    case GetLocal(_, _) => e
    case SetLocal(index, _, isTee, ty) => SetLocal(index, kids[0], isTee, ty)
    case GetGlobal(_, _) => e
    case SetGlobal(global, _, ty) => SetGlobal(global, kids[0], ty)
    case Load(bytes, signed, offset, align, isAtomic, _, ty) => Load(bytes, signed, offset, align, isAtomic, kids[0], ty)
    case Store(bytes, offset, align, isAtomic, _, _, valueType, ty) =>
      Store(bytes, offset, align, isAtomic, kids[0], kids[1], valueType, ty)
    case AtomicRMW(op, bytes, offset, _, _, ty) => AtomicRMW(op, bytes, offset, kids[0], kids[1], ty)
    case AtomicCmpxchg(bytes, offset, _, _, _, ty) => AtomicCmpxchg(bytes, offset, kids[0], kids[1], kids[2], ty)
    case AtomicWait(_, _, _, expectedType, ty) => AtomicWait(kids[0], kids[1], kids[2], expectedType, ty)
    case AtomicWake(_, _, ty) => AtomicWake(kids[0], kids[1], ty)
    case Const(_, _) => e
    case Unary(op, _, ty) => Unary(op, kids[0], ty)
    case Binary(op, _, _, ty) => Binary(op, kids[0], kids[1], ty)
    case Select(_, _, _, ty) => Select(kids[0], kids[1], kids[2], ty)
    case Drop(_, ty) => Drop(kids[0], ty)
    case Return(v, ty) => Return(if v.Some? then Some(kids[0]) else None, ty)
    case Host(op, _, ty) => Host(op, kids, ty)
    case Nop(_) => e
    case Unreachable(_) => e
  }

  /** Rebuilding replaces exactly the operands. */
  lemma WithChildrenReplaces(e: Expr, kids: seq<Expr>)
    requires !IsControl(e) && |kids| == |Children(e)|
    ensures Children(WithChildren(e, kids)) == kids
  {
  }

  /** A node rebuilt on its own operands is the node. */
  lemma WithOwnChildren(e: Expr)
    requires !IsControl(e)
    ensures WithChildren(e, Children(e)) == e
  {
  }

  /** A construct still open while reading: the node that opened it (an if
      with its condition already read), the value stack outside it, and, once
      its else is reached, the trees of an if's true arm. */
  datatype Frame = Frame(node: Expr, saved: seq<Expr>, thenArm: Option<seq<Expr>>)

  /** The trees read so far at the current nesting level, and the open
      constructs, innermost last. */
  datatype State = State(vals: seq<Expr>, frames: seq<Frame>)

  /** The arm of a construct read from the trees of its region: the elided
      block the construct points to, or the single tree of the region. */
  function Arm(orig: Expr, trees: seq<Expr>): (r: Option<Expr>)
    ensures r.Some? ==> (Elided(orig) || |trees| == 1)
  {
    if Elided(orig) then Some(Block(orig.name, trees, orig.ty))
    else if |trees| == 1 then Some(trees[0])
    else None
  }

  /** Reading one item. A node without structure pops its operands, which
      must all produce a value, and pushes itself rebuilt on them; a block,
      loop or if opens a frame; a marker closes (or, for else, switches) the
      innermost frame, which must be of its kind. None when the item does not
      fit. */
  function Step(item: Item, s: State): (r: Option<State>)
    ensures item.Nothing? ==> r == Some(s)
  {
    match item
    case Nothing => Some(s)
    case Node(e) =>
      if e.Block? || e.Loop? then Some(State([], s.frames + [Frame(e, s.vals, None)]))
      else if e.If? then
        if |s.vals| == 0 then None
        else Some(State([], s.frames + [Frame(If(s.vals[|s.vals| - 1], e.ifTrue, e.ifFalse, e.ty), s.vals[..|s.vals| - 1], None)]))
      else if |s.vals| < |Children(e)| then None
      else
        var n := |s.vals| - |Children(e)|;
        if exists k :: n <= k < |s.vals| && s.vals[k].ty == none then None
        else Some(State(s.vals[..n] + [WithChildren(e, s.vals[n..])], s.frames))
    case Custom(m) =>
      if |s.frames| == 0 then None
      else
        var f := s.frames[|s.frames| - 1];
        var outer := s.frames[..|s.frames| - 1];
        match m
        case BlockEnd =>
          if f.node.Block? then Some(State(f.saved + [Block(f.node.name, s.vals, f.node.ty)], outer)) else None
        case LoopEnd =>
          if !f.node.Loop? then None
          else
            (match Arm(f.node.body, s.vals)
             case None => None
             case Some(body) => Some(State(f.saved + [Loop(f.node.name, body, f.node.ty)], outer)))
        case IfElse =>
          if f.node.If? && f.thenArm.None? then Some(State([], outer + [f.(thenArm := Some(s.vals))])) else None
        case IfEnd =>
          if !f.node.If? then None
          else if f.thenArm.None? then
            (match Arm(f.node.ifTrue, s.vals)
             case None => None
             case Some(t) => Some(State(f.saved + [If(f.node.condition, t, None, f.node.ty)], outer)))
          else if f.node.ifFalse.None? then None
          else
            (match (Arm(f.node.ifTrue, f.thenArm.value), Arm(f.node.ifFalse.value, s.vals))
             case (Some(t), Some(fa)) => Some(State(f.saved + [If(f.node.condition, t, Some(fa), f.node.ty)], outer))
             case _ => None)
  }

  /** Reading a whole sequence from state `s`, item by item. */
  function Run(items: seq<Item>, s: State): Option<State>
  {
    if |items| == 0 then Some(s)
    else
      match Run(items[..|items| - 1], s)
      case None => None
      case Some(s') => Step(items[|items| - 1], s')
  }

  /** What a sequence represents: the trees it reads back to when every
      construct it opens is closed, or None. */
  function Reassemble(items: seq<Item>): Option<seq<Expr>>
  {
    match Run(items, State([], []))
    case Some(State(vals, frames)) => if |frames| == 0 then Some(vals) else None
    case None => None
  }

  function Bind(r: Option<State>, items: seq<Item>): Option<State>
  {
    match r
    case None => None
    case Some(s) => Run(items, s)
  }

  lemma {:induction false} RunAppend(a: seq<Item>, b: seq<Item>, s: State)
    ensures Run(a + b, s) == Bind(Run(a, s), b)
    decreases |b|
  {
    if |b| == 0 {
      assert a + b == a;
    } else {
      assert (a + b)[..|a + b| - 1] == a + b[..|b| - 1];
      RunAppend(a, b[..|b| - 1], s);
    }
  }

  lemma RunOne(x: Item, s: State)
    ensures Run([x], s) == Step(x, s)
  {
    assert [x][..0] == [];
  }

  // ---------------------------------------------------------------------------
  // Empty slots

  /** The items that are not empty slots. */
  function Strip(items: seq<Item>): (r: seq<Item>)
    ensures |r| <= |items|
    ensures forall k :: 0 <= k < |r| ==> !r[k].Nothing?
  {
    if |items| == 0 then []
    else if items[|items| - 1].Nothing? then Strip(items[..|items| - 1])
    else Strip(items[..|items| - 1]) + [items[|items| - 1]]
  }

  /** Empty slots carry no meaning: a sequence reads exactly as the sequence
      of its other items. */
  lemma {:induction false} RunStrip(items: seq<Item>, s: State)
    ensures Run(items, s) == Run(Strip(items), s)
    decreases |items|
  {
    if |items| > 0 {
      var init := items[..|items| - 1];
      RunStrip(init, s);
      if !items[|items| - 1].Nothing? {
        var r := Strip(init) + [items[|items| - 1]];
        assert r[..|r| - 1] == Strip(init);
      }
    }
  }

  /** Stripping distributes over concatenation. */
  lemma {:induction false} StripAppend(a: seq<Item>, b: seq<Item>)
    ensures Strip(a + b) == Strip(a) + Strip(b)
    decreases |b|
  {
    if |b| == 0 {
      assert a + b == a;
    } else {
      assert (a + b)[..|a + b| - 1] == a + b[..|b| - 1];
      StripAppend(a, b[..|b| - 1]);
    }
  }

  /** A sequence without empty slots is its own stripped form. */
  lemma {:induction false} StripFull(items: seq<Item>)
    requires forall k :: 0 <= k < |items| ==> !items[k].Nothing?
    ensures Strip(items) == items
    decreases |items|
  {
    if |items| > 0 {
      StripFull(items[..|items| - 1]);
      assert items[..|items| - 1] + [items[|items| - 1]] == items;
    }
  }

  /** Stripping a sequence without empty slots into which one was inserted
      gives the sequence back. */
  lemma InsertionStrips(items: seq<Item>, i: nat)
    requires i <= |items|
    requires forall k :: 0 <= k < |items| ==> !items[k].Nothing?
    ensures Strip(items[..i] + [Nothing] + items[i..]) == items
  {
    StripAppend(items[..i] + [Nothing], items[i..]);
    StripAppend(items[..i], [Nothing]);
    assert Strip([Nothing]) == [] by { assert [Nothing][..0] == []; }
    StripFull(items[..i]);
    StripFull(items[i..]);
    assert items[..i] + items[i..] == items;
  }

  /** Emptying the slot of item `i` is the same as deleting it from the
      sequence: the removal needs no re-indexing of the rest. */
  lemma NullingIsRemoval(items: seq<Item>, i: nat)
    requires i < |items|
    ensures Reassemble(items[i := Nothing]) == Reassemble(items[..i] + items[i + 1..])
  {
    var s0 := State([], []);
    assert items[i := Nothing] == items[..i] + ([Nothing] + items[i + 1..]);
    RunAppend(items[..i], [Nothing] + items[i + 1..], s0);
    RunAppend(items[..i], items[i + 1..], s0);
    var r := Run(items[..i], s0);
    if r.Some? {
      RunAppend([Nothing], items[i + 1..], r.value);
      RunOne(Nothing, r.value);
    }
  }

  /** Inserting an empty slot anywhere changes nothing. */
  lemma InsertNothing(items: seq<Item>, i: nat)
    requires i <= |items|
    ensures Reassemble(items[..i] + [Nothing] + items[i..]) == Reassemble(items)
  {
    var s0 := State([], []);
    assert items[..i] + [Nothing] + items[i..] == items[..i] + ([Nothing] + items[i..]);
    assert items == items[..i] + items[i..];
    RunAppend(items[..i], [Nothing] + items[i..], s0);
    RunAppend(items[..i], items[i..], s0);
    var r := Run(items[..i], s0);
    if r.Some? {
      RunAppend([Nothing], items[i..], r.value);
      RunOne(Nothing, r.value);
    }
  }

  // ---------------------------------------------------------------------------
  // Reading back undoes flattening

  /** Every operand of a node without structure produces a value (a node of
      type none, such as a call to a function without result, cannot be an
      operand), at every depth of the tree. */
  predicate ValueOperands(e: Expr)
    decreases e
  {
    (!IsControl(e) ==> forall k :: 0 <= k < |Children(e)| ==> Children(e)[k].ty != none)
    && forall k :: 0 <= k < |Children(e)| ==> ValueOperands(Children(e)[k])
  }

  /** The trees a node contributes in the position of a body. */
  function ContentsTrees(e: Expr): (r: seq<Expr>)
    ensures Arm(e, r) == Some(e)
  {
    if Elided(e) then e.list else [e]
  }

  /** Reading the items of a node pushes exactly that node. */
  lemma {:induction false} FlattenRun(e: Expr, s: State)
    requires ValueOperands(e)
    ensures Run(Flatten(e), s) == Some(State(s.vals + [e], s.frames))
    decreases e, 2
  {
    if e.Block? {
      FlattenRunBlock(e, s);
    } else if e.Loop? {
      FlattenRunLoop(e, s);
    } else if e.If? {
      FlattenRunIf(e, s);
    } else {
      FlattenRunOperator(e, s);
    }
  }

  lemma {:induction false} FlattenRunBlock(e: Expr, s: State)
    requires e.Block? && ValueOperands(e)
    ensures Run(Flatten(e), s) == Some(State(s.vals + [e], s.frames))
    decreases e, 1
  {
    var Block(name, list, ty) := e;
    var body := FlattenList(list, e);
    assert Children(e) == list;
    assert Flatten(e) == [Node(e)] + body + [Custom(BlockEnd)];
    RunAppend([Node(e)] + body, [Custom(BlockEnd)], s);
    RunAppend([Node(e)], body, s);
    RunOne(Node(e), s);
    var inner := s.frames + [Frame(e, s.vals, None)];
    FlattenListRun(list, e, State([], inner));
    assert [] + list == list;
    assert Run([Node(e)] + body, s) == Some(State(list, inner));
    RunOne(Custom(BlockEnd), State(list, inner));
    assert inner[..|inner| - 1] == s.frames;
    assert Step(Custom(BlockEnd), State(list, inner)) == Some(State(s.vals + [e], s.frames));
  }

  lemma {:induction false} FlattenRunLoop(e: Expr, s: State)
    requires e.Loop? && ValueOperands(e)
    ensures Run(Flatten(e), s) == Some(State(s.vals + [e], s.frames))
    decreases e, 1
  {
    var Loop(name, body, ty) := e;
    var items := FlattenContents(body);
    assert ValueOperands(body) by { assert Children(e)[0] == body; }
    assert Flatten(e) == [Node(e)] + items + [Custom(LoopEnd)];
    RunAppend([Node(e)] + items, [Custom(LoopEnd)], s);
    RunAppend([Node(e)], items, s);
    RunOne(Node(e), s);
    var inner := s.frames + [Frame(e, s.vals, None)];
    FlattenContentsRun(body, State([], inner));
    assert [] + ContentsTrees(body) == ContentsTrees(body);
    assert Run([Node(e)] + items, s) == Some(State(ContentsTrees(body), inner));
    RunOne(Custom(LoopEnd), State(ContentsTrees(body), inner));
    assert inner[..|inner| - 1] == s.frames;
    assert Step(Custom(LoopEnd), State(ContentsTrees(body), inner)) == Some(State(s.vals + [e], s.frames));
  }

  lemma {:induction false} FlattenRunIf(e: Expr, s: State)
    requires e.If? && ValueOperands(e)
    ensures Run(Flatten(e), s) == Some(State(s.vals + [e], s.frames))
    decreases e, 1
  {
    var If(c, t, f, ty) := e;
    assert ValueOperands(c) && ValueOperands(t) by {
      assert Children(e)[0] == c && Children(e)[1] == t;
    }
    var head := Flatten(c) + [Node(e)];
    var elseArm := if f.Some? then [Custom(IfElse)] + FlattenContents(f.value) else [];
    assert Flatten(e) == head + FlattenContents(t) + elseArm + [Custom(IfEnd)];
    var inner := s.frames + [Frame(e, s.vals, None)];
    // the condition, then the if: its frame is open and the value stack empty
    assert Run(head, s) == Some(State([], inner)) by {
      RunAppend(Flatten(c), [Node(e)], s);
      FlattenRun(c, s);
      OpenIf(e, s.vals, s.frames);
    }
    // the true arm
    assert Run(head + FlattenContents(t), s) == Some(State(ContentsTrees(t), inner)) by {
      RunAppend(head, FlattenContents(t), s);
      FlattenContentsRun(t, State([], inner));
      assert [] + ContentsTrees(t) == ContentsTrees(t);
    }
    RunAppend(head + FlattenContents(t), elseArm, s);
    RunAppend(head + FlattenContents(t) + elseArm, [Custom(IfEnd)], s);
    if f.Some? {
      assert ValueOperands(f.value) by { assert Children(e)[2] == f.value; }
      var inner' := s.frames + [Frame(e, s.vals, Some(ContentsTrees(t)))];
      assert Run(elseArm, State(ContentsTrees(t), inner)) == Some(State(ContentsTrees(f.value), inner')) by {
        RunAppend([Custom(IfElse)], FlattenContents(f.value), State(ContentsTrees(t), inner));
        OpenElse(e, ContentsTrees(t), s.vals, s.frames);
        FlattenContentsRun(f.value, State([], inner'));
        assert [] + ContentsTrees(f.value) == ContentsTrees(f.value);
      }
      CloseIfElse(e, s.vals, s.frames);
    } else {
      assert Run(elseArm, State(ContentsTrees(t), inner)) == Some(State(ContentsTrees(t), inner));
      CloseIf(e, s.vals, s.frames);
    }
  }

  /** The steps of an if: opening it on its condition, switching to the
      false arm, and closing it with one arm or two. */
  lemma OpenIf(e: Expr, vals: seq<Expr>, frames: seq<Frame>)
    requires e.If?
    ensures Run([Node(e)], State(vals + [e.condition], frames)) == Some(State([], frames + [Frame(e, vals, None)]))
  {
    RunOne(Node(e), State(vals + [e.condition], frames));
    assert (vals + [e.condition])[..|vals|] == vals;
  }

  lemma OpenElse(e: Expr, trees: seq<Expr>, vals: seq<Expr>, frames: seq<Frame>)
    requires e.If?
    ensures Run([Custom(IfElse)], State(trees, frames + [Frame(e, vals, None)]))
         == Some(State([], frames + [Frame(e, vals, Some(trees))]))
  {
    RunOne(Custom(IfElse), State(trees, frames + [Frame(e, vals, None)]));
    assert (frames + [Frame(e, vals, None)])[..|frames|] == frames;
  }

  lemma CloseIf(e: Expr, vals: seq<Expr>, frames: seq<Frame>)
    requires e.If? && e.ifFalse.None?
    ensures Run([Custom(IfEnd)], State(ContentsTrees(e.ifTrue), frames + [Frame(e, vals, None)]))
         == Some(State(vals + [e], frames))
  {
    RunOne(Custom(IfEnd), State(ContentsTrees(e.ifTrue), frames + [Frame(e, vals, None)]));
    assert (frames + [Frame(e, vals, None)])[..|frames|] == frames;
  }

  lemma CloseIfElse(e: Expr, vals: seq<Expr>, frames: seq<Frame>)
    requires e.If? && e.ifFalse.Some?
    ensures Run([Custom(IfEnd)], State(ContentsTrees(e.ifFalse.value), frames + [Frame(e, vals, Some(ContentsTrees(e.ifTrue)))]))
         == Some(State(vals + [e], frames))
  {
    var f := Frame(e, vals, Some(ContentsTrees(e.ifTrue)));
    RunOne(Custom(IfEnd), State(ContentsTrees(e.ifFalse.value), frames + [f]));
    assert (frames + [f])[..|frames|] == frames;
  }

  lemma {:induction false} FlattenRunOperator(e: Expr, s: State)
    requires !IsControl(e) && ValueOperands(e)
    ensures Run(Flatten(e), s) == Some(State(s.vals + [e], s.frames))
    decreases e, 1
  {
    var kids := Children(e);
    assert Flatten(e) == FlattenList(kids, e) + [Node(e)];
    RunAppend(FlattenList(kids, e), [Node(e)], s);
    FlattenListRun(kids, e, s);
    RunOne(Node(e), State(s.vals + kids, s.frames));
    var vals := s.vals + kids;
    assert vals[..|s.vals|] == s.vals && vals[|s.vals|..] == kids;
    WithOwnChildren(e);
  }

  lemma {:induction false} FlattenListRun(xs: seq<Expr>, parent: Expr, s: State)
    requires forall k :: 0 <= k < |xs| ==> xs[k] < parent && ValueOperands(xs[k])
    ensures Run(FlattenList(xs, parent), s) == Some(State(s.vals + xs, s.frames))
    decreases parent, 0, |xs|
  {
    if |xs| == 0 {
      assert s.vals + xs == s.vals;
    } else {
      var init := xs[..|xs| - 1];
      var last := xs[|xs| - 1];
      RunAppend(FlattenList(init, parent), Flatten(last), s);
      FlattenListRun(init, parent, s);
      FlattenRun(last, State(s.vals + init, s.frames));
      assert xs == init + [last];
      Append2(s.vals, init, [last]);
    }
  }

  lemma {:induction false} FlattenContentsRun(e: Expr, s: State)
    requires ValueOperands(e)
    ensures Run(FlattenContents(e), s) == Some(State(s.vals + ContentsTrees(e), s.frames))
    decreases e, 3
  {
    if Elided(e) {
      assert forall k :: 0 <= k < |e.list| ==> e.list[k] == Children(e)[k];
      FlattenListRun(e.list, e, s);
    } else {
      FlattenRun(e, s);
    }
  }

  /** The linear form of a tree represents the tree: read back, the items of
      a node are the node, and the items of a body are its trees. */
  lemma FlattenReassembles(e: Expr)
    requires ValueOperands(e)
    ensures Reassemble(Flatten(e)) == Some([e])
    ensures Reassemble(FlattenContents(e)) == Some(ContentsTrees(e))
  {
    var s0 := State([], []);
    FlattenRun(e, s0);
    assert [] + [e] == [e];
    assert Run(Flatten(e), s0) == Some(State([e], []));
    FlattenContentsRun(e, s0);
    assert [] + ContentsTrees(e) == ContentsTrees(e);
    assert Run(FlattenContents(e), s0) == Some(State(ContentsTrees(e), []));
  }

  // ---------------------------------------------------------------------------
  // The builder

  /** Builds the linear form of a tree: `nodes` grows as the walk proceeds,
      and the labels in scope are kept as the writer keeps them. */
  class Builder {
    const debug: bool
    var nodes: seq<Item>
    var breakStack: seq<Label>
    var depth: int  // only for debugging; nothing changes it

    /** The linear form of `expr`, or of its contents when it is a body. */
    constructor (expr: Expr, debug: bool, possibleBlockContents: bool)
      ensures nodes == if possibleBlockContents then FlattenContents(expr) else Flatten(expr)
      ensures breakStack == [] && depth == 0 && this.debug == debug
    {
      this.debug := debug;
      nodes := [];
      breakStack := [];
      depth := 0;
      new;
      assert depth == 0;
      if !possibleBlockContents {
        Recurse(expr);
      } else {
        RecursePossibleBlockContents(expr);
      }
      assert depth == 0;
    }

    method Recurse(e: Expr)
      modifies this
      ensures nodes == old(nodes) + Flatten(e)
      ensures breakStack == old(breakStack) && depth == old(depth)
      decreases e, 3
    {
      Visit(e);
    }

    /** Emits a node; a block nothing branches to contributes its children
        alone. */
    method RecursePossibleBlockContents(e: Expr)
      modifies this
      ensures nodes == old(nodes) + FlattenContents(e)
      ensures breakStack == old(breakStack) && depth == old(depth)
      decreases e, 4
    {
      if !e.Block? || BrokenTo(e) {
        Recurse(e);
        return;
      }
      RecurseList(e.list, e);
    }

    method Visit(e: Expr)
      modifies this
      ensures nodes == old(nodes) + Flatten(e)
      ensures breakStack == old(breakStack) && depth == old(depth)
      decreases e, 2
    {
      match e
      case Block(_, _, _) => VisitBlock(e);
      case Loop(_, _, _) => VisitLoop(e);
      case If(_, _, _, _) => VisitIf(e);
      case _ => VisitOperator(e);
    }

    method VisitBlock(e: Expr)
      requires e.Block?
      modifies this
      ensures nodes == old(nodes) + Flatten(e)
      ensures breakStack == old(breakStack) && depth == old(depth)
      decreases e, 1
    {
      ghost var o := nodes;
      nodes := nodes + [Node(e)];
      breakStack := breakStack + [e.name];
      RecurseList(e.list, e);
      breakStack := breakStack[..|breakStack| - 1];
      nodes := nodes + [Custom(BlockEnd)];
      Append3(o, [Node(e)], FlattenList(e.list, e), [Custom(BlockEnd)]);
    }

    method VisitLoop(e: Expr)
      requires e.Loop?
      modifies this
      ensures nodes == old(nodes) + Flatten(e)
      ensures breakStack == old(breakStack) && depth == old(depth)
      decreases e, 1
    {
      ghost var o := nodes;
      nodes := nodes + [Node(e)];
      breakStack := breakStack + [e.name];
      RecursePossibleBlockContents(e.body);
      breakStack := breakStack[..|breakStack| - 1];
      nodes := nodes + [Custom(LoopEnd)];
      Append3(o, [Node(e)], FlattenContents(e.body), [Custom(LoopEnd)]);
    }

    method VisitIf(e: Expr)
      requires e.If?
      modifies this
      ensures nodes == old(nodes) + Flatten(e)
      ensures breakStack == old(breakStack) && depth == old(depth)
      decreases e, 1
    {
      ghost var o := nodes;
      var If(condition, ifTrue, ifFalse, _) := e;
      Recurse(condition);
      nodes := nodes + [Node(e)];
      breakStack := breakStack + [ImpossibleContinue];
      RecursePossibleBlockContents(ifTrue);
      breakStack := breakStack[..|breakStack| - 1];
      ghost var p := nodes;
      ghost var elseArm: seq<Item> := [];
      if ifFalse.Some? {
        nodes := nodes + [Custom(IfElse)];
        breakStack := breakStack + [ImpossibleContinue];
        RecursePossibleBlockContents(ifFalse.value);
        breakStack := breakStack[..|breakStack| - 1];
        elseArm := [Custom(IfElse)] + FlattenContents(ifFalse.value);
        Append2(p, [Custom(IfElse)], FlattenContents(ifFalse.value));
      }
      nodes := nodes + [Custom(IfEnd)];
      Append5(o, Flatten(condition), [Node(e)], FlattenContents(ifTrue), elseArm, [Custom(IfEnd)]);
    }

    /** Any other node: its operands, then the node. */
    method VisitOperator(e: Expr)
      requires !IsControl(e)
      modifies this
      ensures nodes == old(nodes) + Flatten(e)
      ensures breakStack == old(breakStack) && depth == old(depth)
      decreases e, 1
    {
      RecurseList(Children(e), e);
      nodes := nodes + [Node(e)];
    }

    /** Emits each of `xs`, children of `parent`, in turn. */
    method RecurseList(xs: seq<Expr>, ghost parent: Expr)
      requires forall k :: 0 <= k < |xs| ==> xs[k] < parent
      modifies this
      ensures nodes == old(nodes) + FlattenList(xs, parent)
      ensures breakStack == old(breakStack) && depth == old(depth)
      decreases parent, 0
    {
      var i := 0;
      while i < |xs|
        invariant 0 <= i <= |xs| && breakStack == old(breakStack) && depth == old(depth)
        invariant nodes == old(nodes) + FlattenList(xs[..i], parent)
      {
        Recurse(xs[i]);
        assert xs[..i + 1][..i] == xs[..i];
        Append2(old(nodes), FlattenList(xs[..i], parent), Flatten(xs[i]));
        i := i + 1;
      }
      assert xs[..i] == xs;
    }
  }

  /** The builder of a function body, whose top level may be a list of
      items without an enclosing block. */
  method FunctionBodyBuilder(expr: Expr, debug: bool) returns (b: Builder)
    ensures fresh(b)
    ensures b.nodes == FlattenContents(expr) && b.breakStack == []
    ensures ValueOperands(expr) ==> Reassemble(b.nodes) == Some(ContentsTrees(expr))
  {
    b := new Builder(expr, debug, true);
    if ValueOperands(expr) {
      FlattenReassembles(expr);
    }
  }

  // ---------------------------------------------------------------------------
  // The documented example

  const Ten := Const(LitI32(10), i32)
  const GetX := GetLocal(0, i32)
  const Add := Binary(AddInt32, Ten, GetX, i32)
  const BlockB := Block(Named("b"), [Add], i32)

  /** `block $b (result i32)`, `i32.const 10`, `get_local $x`, an empty slot,
      `i32.add`, and the block's end. */
  const Example := [Node(BlockB), Node(Ten), Node(GetX), Nothing, Node(Add), Custom(BlockEnd)]

  /** A node without operands is its own linear form. */
  lemma FlattenLeaf(e: Expr)
    requires !IsControl(e) && Children(e) == []
    ensures Flatten(e) == [Node(e)]
  {
    assert FlattenList(Children(e), e) == [];
  }

  lemma ExampleFlatten()
    ensures Flatten(BlockB) == [Node(BlockB), Node(Ten), Node(GetX), Node(Add), Custom(BlockEnd)]
  {
    FlattenLeaf(Ten);
    FlattenLeaf(GetX);
    var kids := [Ten, GetX];
    assert Children(Add) == kids;
    assert kids[..1] == [Ten] && [Ten][..0] == [];
    assert FlattenList([Ten], Add) == FlattenList([], Add) + Flatten(Ten);
    assert FlattenList(kids, Add) == FlattenList([Ten], Add) + Flatten(GetX);
    assert Flatten(Add) == FlattenList(kids, Add) + [Node(Add)];
    assert [Add][..0] == [];
    assert FlattenList([Add], BlockB) == FlattenList([], BlockB) + Flatten(Add);
    assert Flatten(BlockB) == [Node(BlockB)] + FlattenList([Add], BlockB) + [Custom(BlockEnd)];
  }

  lemma ExampleValueOperands()
    ensures ValueOperands(BlockB)
  {
    assert Children(Ten) == [] && Children(GetX) == [];
    assert ValueOperands(Ten) && ValueOperands(GetX);
    assert Children(Add) == [Ten, GetX];
    assert ValueOperands(Add);
    assert Children(BlockB) == [Add];
  }

  /** The example is the block's linear form with an empty slot before the
      addition. */
  lemma ExampleIsInsertion()
    ensures |Flatten(BlockB)| == 5
    ensures forall k :: 0 <= k < |Flatten(BlockB)| ==> !Flatten(BlockB)[k].Nothing?
    ensures Example == Flatten(BlockB)[..3] + [Nothing] + Flatten(BlockB)[3..]
  {
    ExampleFlatten();
  }

  /** The example represents `(block $b (result i32) (i32.add (i32.const 10)
      (get_local $x)))`, and is that tree's linear form with one slot
      emptied. */
  lemma ExampleRepresentsBlock()
    ensures Reassemble(Example) == Some([BlockB])
    ensures Strip(Example) == Flatten(BlockB)
  {
    var items := Flatten(BlockB);
    ExampleIsInsertion();
    ExampleValueOperands();
    FlattenReassembles(BlockB);
    InsertNothing(items, 3);
    InsertionStrips(items, 3);
  }

  /** A node without operands pushes itself. */
  lemma StepLeaf(e: Expr, s: State)
    requires !IsControl(e) && Children(e) == []
    ensures Step(Node(e), s) == Some(State(s.vals + [e], s.frames))
  {
    WithOwnChildren(e);
    assert s.vals[|s.vals|..] == [] && s.vals[..|s.vals|] == s.vals;
  }

  /** Reading one more item is one more step. */
  lemma RunSnoc(items: seq<Item>, x: Item, s: State)
    ensures Run(items + [x], s) == Bind(Run(items, s), [x])
  {
    RunAppend(items, [x], s);
  }

  const Foo := Call("foo", [], none)

  /** Three nodes without operands push themselves in order. */
  lemma RunLeaves(a: Expr, b: Expr, c: Expr, s: State)
    requires !IsControl(a) && Children(a) == []
    requires !IsControl(b) && Children(b) == []
    requires !IsControl(c) && Children(c) == []
    ensures Run([Node(a), Node(b), Node(c)], s) == Some(State(s.vals + [a, b, c], s.frames))
  {
    var sa := State(s.vals + [a], s.frames);
    var sb := State(s.vals + [a, b], s.frames);
    assert Run([Node(a)], s) == Some(sa) by {
      RunOne(Node(a), s);
      StepLeaf(a, s);
    }
    assert Run([Node(a), Node(b)], s) == Some(sb) by {
      RunSnoc([Node(a)], Node(b), s);
      assert [Node(a)] + [Node(b)] == [Node(a), Node(b)];
      RunOne(Node(b), sa);
      StepLeaf(b, sa);
      assert sa.vals + [b] == s.vals + [a, b];
    }
    RunSnoc([Node(a), Node(b)], Node(c), s);
    assert [Node(a), Node(b)] + [Node(c)] == [Node(a), Node(b), Node(c)];
    RunOne(Node(c), sb);
    StepLeaf(c, sb);
    assert sb.vals + [c] == s.vals + [a, b, c];
  }

  lemma VoidCallHead()
    ensures Run([Node(BlockB), Node(Ten), Node(GetX), Node(Foo)], State([], []))
         == Some(State([Ten, GetX, Foo], [Frame(BlockB, [], None)]))
  {
    var s0 := State([], []);
    var inner := [Frame(BlockB, [], None)];
    assert Run([Node(BlockB)], s0) == Some(State([], inner)) by {
      RunOne(Node(BlockB), s0);
      assert s0.frames + [Frame(BlockB, s0.vals, None)] == inner;
    }
    assert Children(Ten) == [] && Children(GetX) == [] && Children(Foo) == [];
    RunLeaves(Ten, GetX, Foo, State([], inner));
    RunAppend([Node(BlockB)], [Node(Ten), Node(GetX), Node(Foo)], s0);
    assert [Node(BlockB)] + [Node(Ten), Node(GetX), Node(Foo)] == [Node(BlockB), Node(Ten), Node(GetX), Node(Foo)];
    assert [] + [Ten, GetX, Foo] == [Ten, GetX, Foo];
  }

  /** With a call to a function without result in the empty slot there is no
      tree the sequence represents: the addition would consume the call. */
  lemma ExampleWithVoidCall()
    ensures Reassemble(Example[3 := Node(Foo)]) == None
  {
    var head := [Node(BlockB), Node(Ten), Node(GetX), Node(Foo)];
    var s4 := State([Ten, GetX, Foo], [Frame(BlockB, [], None)]);
    VoidCallHead();
    assert Step(Node(Add), s4) == None by {
      assert Children(Add) == [Ten, GetX];
      assert s4.vals[2].ty == none;
    }
    var tail := [Node(Add), Custom(BlockEnd)];
    assert Run(tail, s4) == None by {
      RunAppend([Node(Add)], [Custom(BlockEnd)], s4);
      RunOne(Node(Add), s4);
    }
    assert head + tail == Example[3 := Node(Foo)];
    RunAppend(head, tail, State([], []));
  }
}
