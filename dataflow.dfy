/** The DataFlow builder: a walk over a function body in flat IR that builds
    SSA nodes. It tracks, on the control-flow path being walked, the node
    each local holds (an empty state on an unreachable path), records the
    state at every branch, and merges states where paths join, creating phis
    only where they differ. Named loops avoid phis by giving every local a
    fresh Var and, after the body, undoing the Var wherever no path needed
    it. */
module DataFlow {
  import opened Wasm
  import opened DataFlowSpec

  class Builder {
    const func: Function
    /** Whether a node produces a one-bit result (a comparison). */
    const returnsI1: Node -> bool
    /** The wasm type of the value a node produces. */
    const typeOf: Node -> Type

    var nodes: seq<Node>
    var locals: seq<Ref>
    var breakStates: map<Label, seq<seq<Ref>>>
    var sets: seq<Expr>
    var setNodeMap: map<Expr, Ref>
    var parentMap: map<Expr, Option<Expr>>
    var expressionConditionMap: map<Expr, seq<Ref>>
    var parent: Option<Expr>
    /** The builder's state on entry to the body. */
    ghost var start: Snapshot

    /** Every reference names an existing node, and every state is either
        empty or holds one node per local. */
    ghost predicate Valid()
      reads this
    {
      ValidFunction(func)
      && (forall nd :: IsInteger(typeOf(nd)))
      && NodesOk(nodes)
      && StateOk(locals, NumLocals(func), |nodes|)
      && BreakStatesOk(breakStates, NumLocals(func), |nodes|)
      && SetMapOk(setNodeMap, |nodes|)
      && ConditionMapOk(expressionConditionMap, |nodes|)
    }

    /** What the walk records about the tree is unchanged: the branch
        states, the sets, the maps and the current parent. */
    twostate predicate Records()
      reads this
    {
      breakStates == old(breakStates) && sets == old(sets) && setNodeMap == old(setNodeMap)
      && parentMap == old(parentMap) && expressionConditionMap == old(expressionConditionMap)
      && parent == old(parent)
    }

    /** Only the node list changed. */
    twostate predicate OnlyNodes()
      reads this
    {
      Records() && locals == old(locals)
    }

    /** Only the branch states changed. */
    twostate predicate OnlyBreakStates()
      reads this
    {
      nodes == old(nodes) && locals == old(locals) && sets == old(sets) && setNodeMap == old(setNodeMap)
      && parentMap == old(parentMap) && expressionConditionMap == old(expressionConditionMap)
      && parent == old(parent)
    }

    /** What every visit ensures: references stay valid, nodes and sets are
        only added to, the parent is restored, and an operand that cannot
        end its path leaves a reachable path reachable. */
    twostate predicate Walked(e: Expr, r: Ref)
      reads this
    {
      Valid() && old(nodes) <= nodes && RefOk(r, |nodes|) && old(sets) <= sets && parent == old(parent)

      && (|old(locals)| > 0 && StaysReachable(e) ==> |locals| > 0)
    }

    /** The parent and the conditions recorded for every tree node that is
        neither `e` nor inside it are unchanged. */
    twostate predicate Kept(e: Expr)
      reads this
    {
      (forall x :: x != e && !(x < e) ==>
         (x in parentMap <==> x in old(parentMap)) && (x in parentMap ==> parentMap[x] == old(parentMap)[x]))
      && (forall x :: x != e && !(x < e) ==>
            (x in expressionConditionMap <==> x in old(expressionConditionMap))
            && (x in expressionConditionMap ==> expressionConditionMap[x] == old(expressionConditionMap)[x]))
    }

    /** Builds the nodes of `func`. Parameters start as Vars, other locals
        as zero constants, and the body is walked from there, as `Walks`
        says; a function without locals is not walked. */
    constructor (func: Function, returnsI1: Node -> bool, typeOf: Node -> Type)
      requires ValidFunction(func) && WellFormed(func.body, NumLocals(func))
      requires forall nd :: IsInteger(typeOf(nd))
      ensures Valid() && this.func == func
      ensures NumLocals(func) == 0 ==> nodes == [] && locals == []
      ensures NumLocals(func) > 0 ==>
                start == Snapshot(start.nodes, start.locals, map[], [], map[], map[], map[], None)
                && |start.locals| == NumLocals(func)
                && (forall i :: 0 <= i < NumLocals(func) ==> InitialLocal(i, start.locals[i]))
                && exists r :: Walks(func.body, start, Snap(), r)
    {
      this.func := func;
      this.returnsI1 := returnsI1;
      this.typeOf := typeOf;
      nodes := [];
      locals := [];
      breakStates := map[];
      sets := [];
      setNodeMap := map[];
      parentMap := map[];
      expressionConditionMap := map[];
      parent := None;
      start := Snapshot([], [], map[], [], map[], map[], map[], None);
      new;
      if NumLocals(func) == 0 {
        return;
      }
      SetUpLocals();
      ghost var initial := Snap();
      var r := Visit(func.body);
      start := initial;
      forall i | 0 <= i < NumLocals(func)
        ensures InitialLocal(i, start.locals[i])
      {
        if start.locals[i].At? {
          assert nodes[start.locals[i].index] == start.nodes[start.locals[i].index];
        }
      }
      assert Walks(func.body, start, Snap(), r);
    }

    /** The initial state: a Var for each parameter of integer type, Bad for
        other parameters, a zero constant for every other local. */
    method SetUpLocals()
      requires Valid() && |locals| == 0
      modifies this
      ensures Valid() && old(nodes) <= nodes
      ensures |locals| == NumLocals(func)
      ensures forall i :: 0 <= i < NumLocals(func) ==> InitialLocal(i, locals[i])
      ensures Records()
    {
      SetInReachable();
      var i := 0;
      while i < NumLocals(func)
        invariant 0 <= i <= NumLocals(func) && |locals| == NumLocals(func)
        invariant Valid() && old(nodes) <= nodes
        invariant forall k :: 0 <= k < i ==> InitialLocal(k, locals[k])
        invariant Records()
      {
        var node: Ref;
        var t := LocalType(func, i);
        if IsParam(func, i) {
          node := MakeVar(t);
        } else {
          node := MakeZero(t);
        }
        locals := locals[i := node];
        i := i + 1;
      }
    }

    ghost predicate InitialLocal(i: nat, r: Ref)
      requires ValidFunction(func) && i < NumLocals(func)
      reads this
    {
      var t := LocalType(func, i);
      if IsParam(func, i) then
        (if IsRelevantType(t) then r.At? && r.index < |nodes| && nodes[r.index] == Node(Var(t), []) else r == Bad)
      else r.At? && r.index < |nodes| && nodes[r.index] == Node(ExprNode(Const(ZeroLiteral(t), t)), [])
    }

    // -------------------------------------------------------------------------
    // Nodes

    /** Appends a node and refers to it. */
    method AddNode(nd: Node) returns (r: Ref)
      requires Valid() && NodeOk(nd, |nodes|)
      modifies this
      ensures Valid() && OnlyNodes()
      ensures nodes == old(nodes) + [nd] && r == At(|old(nodes)|)
      ensures Snap() == old(Snap()).(nodes := old(nodes) + [nd])
    {
      NodesAppend(nodes, nd);
      AllOkGrow(locals, |nodes|, |nodes| + 1);
      BreakStatesGrow(breakStates, NumLocals(func), |nodes|, |nodes| + 1);
      r := At(|nodes|);
      nodes := nodes + [nd];
    }

    /** Adds operand `v` to node `j`. */
    method AddValue(j: nat, v: Ref)
      requires Valid() && j < |nodes| && RefOk(v, |nodes|)
      modifies this
      ensures Valid() && OnlyNodes()
      ensures nodes == old(nodes)[j := Node(old(nodes)[j].kind, old(nodes)[j].values + [v])]
    {
      NodesUpdate(nodes, j, Node(nodes[j].kind, nodes[j].values + [v]));
      nodes := nodes[j := Node(nodes[j].kind, nodes[j].values + [v])];
    }

    /** A value that could be anything: a fresh Var for an integer type, Bad
        for any other. */
    method MakeVar(t: Type) returns (r: Ref)
      requires Valid()
      modifies this
      ensures Valid() && OnlyNodes() && old(nodes) <= nodes && UnknownValue(t, old(Snap()), Snap(), r)
    {
      if IsRelevantType(t) {
        r := AddNode(Node(Var(t), []));
      } else {
        r := Bad;
      }
    }

    /** A fresh constant zero of type `t`. */
    method MakeZero(t: Type) returns (r: Ref)
      requires Valid() && IsValueType(t)
      modifies this
      ensures Valid() && OnlyNodes() && old(nodes) <= nodes
      ensures nodes == old(nodes) + [Node(ExprNode(Const(ZeroLiteral(t), t)), [])] && r == At(|old(nodes)|)
    {
      r := AddNode(Node(ExprNode(Const(ZeroLiteral(t), t)), []));
    }

    /** A test of `node` against zero, for equality or inequality: a
        comparison node on the node (extended to its wasm type) and a fresh
        zero. The comparison's own operands are placeholders. */
    method MakeZeroComp(node: Ref, equal: bool) returns (r: Ref)
      requires Valid() && node.At? && node.index < |nodes|
      modifies this
      ensures Valid() && OnlyNodes() && old(nodes) <= nodes
      ensures ZeroCompFor(nodes, r, node, typeOf(old(nodes)[node.index]), equal, returnsI1)
      ensures ZeroCompared(node, equal, old(Snap()), Snap(), r)
    {
      var t := typeOf(nodes[node.index]);
      var expr := Binary(ZeroTest(t, equal), Unreachable(unreachable), Unreachable(unreachable), t);
      var zero := MakeZero(t);
      var check := AddNode(Node(ExprNode(expr), []));
      var expanded := ExpandFromI1(node);
      AddValue(check.index, expanded);
      AddValue(check.index, zero);
      r := check;
    }

    /** A one-bit result widened to its wasm type by a zero extension; any
        other node, Bad included, as it is. */
    method ExpandFromI1(node: Ref) returns (r: Ref)
      requires Valid() && RefOk(node, |nodes|)
      modifies this
      ensures Valid() && OnlyNodes() && old(nodes) <= nodes
      ensures Expands(nodes, r, node, returnsI1)
      ensures node.Bad? ==> r == Bad && nodes == old(nodes)
      ensures nodes == old(nodes) || nodes == old(nodes) + [Node(Zext, [node])]
      ensures Expanded(node, old(Snap()), Snap(), r)
    {
      r := node;
      if !node.Bad? && returnsI1(nodes[node.index]) {
        r := AddNode(Node(Zext, [node]));
      }
    }

    /** A node as a one-bit condition: a comparison is kept, any other value
        is tested against zero, and Bad stays Bad. */
    method EnsureI1(node: Ref) returns (r: Ref)
      requires Valid() && RefOk(node, |nodes|)
      modifies this
      ensures Valid() && OnlyNodes() && old(nodes) <= nodes && RefOk(r, |nodes|)
      ensures node.Bad? ==> r == Bad && nodes == old(nodes)
      ensures node.At? && returnsI1(old(nodes)[node.index]) ==> r == node && nodes == old(nodes)
      ensures node.At? && !returnsI1(old(nodes)[node.index]) ==>
                ZeroCompFor(nodes, r, node, typeOf(old(nodes)[node.index]), false, returnsI1)
      ensures AsCondition(node, old(Snap()), Snap(), r)
    {
      r := node;
      if !node.Bad? && !returnsI1(nodes[node.index]) {
        r := MakeZeroComp(node, false);
      }
    }

    // -------------------------------------------------------------------------
    // Reachability

    method SetInUnreachable()
      requires Valid()
      modifies this
      ensures Valid() && Records() && locals == [] && nodes == old(nodes)
    {
      locals := [];
    }

    /** Makes the state hold one node per local, keeping those it holds; the
        entries it adds are placeholders every caller overwrites. */
    method SetInReachable()
      requires Valid()
      modifies this
      ensures Valid() && Records() && |locals| == NumLocals(func) && nodes == old(nodes)
      ensures |old(locals)| > 0 ==> locals == old(locals)
    {
      if |locals| == 0 {
        locals := seq(NumLocals(func), _ => Bad);
      }
    }

    /** Whether the path being walked is unreachable. */
    function IsInUnreachable(): (r: bool)
      reads this
      ensures Valid() && NumLocals(func) > 0 ==> (!r <==> |locals| == NumLocals(func))
    {
      |locals| == 0
    }

    // -------------------------------------------------------------------------
    // Merging

    /** Merges the states of the paths that join here into `locals`. */
    method Merge(states: seq<FlowState>)
      requires Valid() && FlowStatesOk(states, NumLocals(func), |nodes|)
      requires (forall k :: 0 <= k < |states| ==> |states[k].locals| == 0) ==> |locals| == 0
      modifies this
      ensures Valid() && Records() && old(nodes) <= nodes
      ensures Wide(Live(states), NumLocals(func))
      ensures Merged(nodes, Live(states), NumLocals(func), old(locals), locals, returnsI1)
      ensures |Live(states)| > 1 && (forall i :: 0 <= i < NumLocals(func) ==> !NeedsPhi(Live(states), i)) ==>
                nodes == old(nodes)
    {
      var live := Live(states);
      LiveOk(states, NumLocals(func), |nodes|);
      var numStates := |live|;
      if numStates == 0 {
        // we were unreachable, and still are
        return;
      }
      SetInReachable();
      if numStates == 1 {
        locals := live[0].locals;
        return;
      }
      MergeLocals(live);
    }

    /** The loop of the merge over the locals, for two or more live paths. */
    method MergeLocals(live: seq<FlowState>)
      requires Valid() && |live| > 1 && FlowStatesOk(live, NumLocals(func), |nodes|) && Wide(live, NumLocals(func))
      requires |locals| == NumLocals(func)
      modifies this
      ensures Valid() && Records() && old(nodes) <= nodes
      ensures Merged(nodes, live, NumLocals(func), old(locals), locals, returnsI1)
      ensures (forall i :: 0 <= i < NumLocals(func) ==> !NeedsPhi(live, i)) ==> nodes == old(nodes)
    {
      var n := NumLocals(func);
      var block: Option<nat> := None;
      var i := 0;
      while i < n
        invariant 0 <= i <= n && |locals| == n
        invariant Valid() && old(nodes) <= nodes && FlowStatesOk(live, n, |nodes|)
        invariant Records()
        invariant block.Some? ==> BlockFor(nodes, block.value, live)
        invariant block.None? ==> nodes == old(nodes)
        invariant block.None? <==> forall k :: 0 <= k < i ==> !NeedsPhi(live, k)
        invariant forall k :: 0 <= k < i ==> MergedLocal(nodes, live, k, locals[k], returnsI1)
        invariant forall k :: 0 <= k < i && NeedsPhi(live, k) ==>
                    block.Some? && locals[k].At? && nodes[locals[k].index].kind == Phi(block.value)
      {
        block := MergeLocal(live, i, block);
        i := i + 1;
      }
    }

    /** The merge of local `i` (the body of the merge's loop over locals):
        Bad if any path holds Bad, the common node if all agree, and
        otherwise a phi, on the merge's block, created on first need. */
    method MergeLocal(live: seq<FlowState>, i: nat, block: Option<nat>) returns (block': Option<nat>)
      requires Valid() && |live| > 1 && i < NumLocals(func) && |locals| == NumLocals(func)
      requires FlowStatesOk(live, NumLocals(func), |nodes|) && Wide(live, NumLocals(func))
      requires block.Some? ==> BlockFor(nodes, block.value, live)
      requires forall k :: 0 <= k < i ==> MergedLocal(nodes, live, k, locals[k], returnsI1)
      requires forall k :: 0 <= k < i && NeedsPhi(live, k) ==> block.Some? && locals[k].At? && nodes[locals[k].index].kind == Phi(block.value)
      modifies this
      ensures Valid() && Records() && old(nodes) <= nodes && |locals| == NumLocals(func)
      ensures block'.Some? ==> BlockFor(nodes, block'.value, live)
      ensures block.Some? ==> block' == block
      ensures block'.Some? <==> block.Some? || NeedsPhi(live, i)
      ensures !NeedsPhi(live, i) ==> nodes == old(nodes)
      ensures forall k :: 0 <= k <= i ==> MergedLocal(nodes, live, k, locals[k], returnsI1)
      ensures forall k :: 0 <= k <= i && NeedsPhi(live, k) ==> block'.Some? && locals[k].At? && nodes[locals[k].index].kind == Phi(block'.value)
    {
      block' := block;
      // if any input is bad, the result is bad
      var s := 0;
      while s < |live| && !live[s].locals[i].Bad?
        invariant 0 <= s <= |live|
        invariant forall t :: 0 <= t < s ==> !live[t].locals[i].Bad?
      {
        s := s + 1;
      }
      if s < |live| {
        locals := locals[i := live[s].locals[i]];
        return;
      }
      assert !AnyBad(live, i);
      var first := live[0].locals[i];
      locals := locals[i := first];
      s := 1;
      while s < |live| && live[s].locals[i] == first
        invariant 1 <= s <= |live|
        invariant forall t :: 0 <= t < s ==> live[t].locals[i] == first
      {
        s := s + 1;
      }
      if s == |live| {
        return;
      }
      block' := MergePhi(live, i, block);
    }

    /** The merge of a local the paths disagree on: a phi on the merge's
        block, the block being created if this is the first phi. */
    method MergePhi(live: seq<FlowState>, i: nat, block: Option<nat>) returns (block': Option<nat>)
      requires Valid() && |live| > 1 && i < NumLocals(func) && |locals| == NumLocals(func)
      requires FlowStatesOk(live, NumLocals(func), |nodes|) && Wide(live, NumLocals(func))
      requires NeedsPhi(live, i)
      requires block.Some? ==> BlockFor(nodes, block.value, live)
      requires forall k :: 0 <= k < i ==> MergedLocal(nodes, live, k, locals[k], returnsI1)
      requires forall k :: 0 <= k < i && NeedsPhi(live, k) ==> block.Some? && locals[k].At? && nodes[locals[k].index].kind == Phi(block.value)
      modifies this
      ensures Valid() && Records() && old(nodes) <= nodes && |locals| == NumLocals(func)
      ensures block'.Some? && BlockFor(nodes, block'.value, live)
      ensures block.Some? ==> block' == block
      ensures forall k :: 0 <= k <= i ==> MergedLocal(nodes, live, k, locals[k], returnsI1)
      ensures forall k :: 0 <= k <= i && NeedsPhi(live, k) ==> locals[k].At? && nodes[locals[k].index].kind == Phi(block'.value)
    {
      block' := block;
      if block'.None? {
        var b := MakeBlock(live);
        block' := Some(b);
      }
      var phi := MakePhi(block'.value, live, i);
      locals := locals[i := phi];
      forall k | 0 <= k < i
        ensures MergedLocal(nodes, live, k, locals[k], returnsI1)
        ensures NeedsPhi(live, k) ==> locals[k].At? && nodes[locals[k].index].kind == Phi(block'.value)
      {
        MergedLocalGrow(old(nodes), nodes, live, k, locals[k], returnsI1);
      }
    }

    /** The block of a merge: one entry per path, a condition node for each
        path that has a condition. */
    method MakeBlock(live: seq<FlowState>) returns (b: nat)
      requires Valid() && FlowStatesOk(live, NumLocals(func), |nodes|)
      modifies this
      ensures Valid() && OnlyNodes() && old(nodes) <= nodes
      ensures b == |old(nodes)| && BlockFor(nodes, b, live)
    {
      var r := AddNode(Node(BlockNode, []));
      b := r.index;
      var index := 0;
      while index < |live|
        invariant 0 <= index <= |live| && b < |nodes|
        invariant Valid() && OnlyNodes() && old(nodes) <= nodes && FlowStatesOk(live, NumLocals(func), |nodes|)
        invariant nodes[b].kind == BlockNode && |nodes[b].values| == index
        invariant forall s :: 0 <= s < index ==> CondFor(nodes, nodes[b].values[s], b, s, live[s].condition)
      {
        var condition := live[index].condition;
        if !condition.Bad? {
          condition := AddNode(Node(Cond(b, index), [condition]));
        }
        ghost var mid := nodes;
        AddValue(b, condition);
        forall s | 0 <= s < index + 1
          ensures CondFor(nodes, nodes[b].values[s], b, s, live[s].condition)
        {
          if s < index && !live[s].condition.Bad? {
            assert nodes[mid[b].values[s].index] == mid[mid[b].values[s].index];
          }
        }
        index := index + 1;
      }
    }

    /** A phi of local `i` on `block`: one value per path, each widened to
        its wasm type. */
    method MakePhi(block: nat, live: seq<FlowState>, i: nat) returns (r: Ref)
      requires Valid() && FlowStatesOk(live, NumLocals(func), |nodes|) && Wide(live, NumLocals(func))
      requires i < NumLocals(func) && BlockFor(nodes, block, live)
      modifies this
      ensures Valid() && OnlyNodes() && old(nodes) <= nodes
      ensures PhiFor(nodes, r, live, i, returnsI1) && nodes[r.index].kind == Phi(block)
    {
      ghost var base := nodes;
      r := AddNode(Node(Phi(block), []));
      var s := 0;
      while s < |live|
        invariant 0 <= s <= |live| && r.index == |base| < |nodes| && base <= nodes
        invariant Valid() && OnlyNodes()
        invariant forall x :: r.index < x < |nodes| ==> nodes[x].kind == Zext
        invariant nodes[r.index].kind == Phi(block) && |nodes[r.index].values| == s
        invariant forall t :: 0 <= t < s ==> Expands(nodes, nodes[r.index].values[t], live[t].locals[i], returnsI1)
      {
        ghost var before := nodes;
        var v := ExpandFromI1(live[s].locals[i]);
        PhiStep(before, nodes, r.index, v, live, i, s, returnsI1);
        AddValue(r.index, v);
        s := s + 1;
      }
      BlockForGrow(base, nodes, block, live);
    }

    /** The merge after an if: the state after each arm, under the arm's
        condition when the if's condition is a node. Both conditions are
        recorded for the if. */
    method MergeIf(aState: seq<Ref>, bState: seq<Ref>, condition: Ref, e: Expr)
      requires Valid() && RefOk(condition, |nodes|)
      requires StateOk(aState, NumLocals(func), |nodes|) && StateOk(bState, NumLocals(func), |nodes|)
      requires |aState| == 0 && |bState| == 0 ==> |locals| == 0
      modifies this
      ensures Valid() && IfMerged(e, condition, aState, bState, old(Snap()), Snap())
    {
      if condition.Bad? {
        var states := [FlowState(aState, Bad), FlowState(bState, Bad)];
        assert states[0].locals == aState && states[1].locals == bState;
        Merge(states);
      } else {
        var ifTrue, ifFalse := MakeIfConditions(condition, e);
        ghost var mid := nodes;
        var states := [FlowState(aState, ifTrue), FlowState(bState, ifFalse)];
        assert states[0].locals == aState && states[1].locals == bState;
        Merge(states);
        var t := typeOf(nodes[condition.index]);
        assert nodes[condition.index] == mid[condition.index];
        ZeroCompGrow(mid, nodes, ifFalse, condition, t, true, returnsI1);
        if !returnsI1(nodes[condition.index]) {
          ZeroCompGrow(mid, nodes, ifTrue, condition, t, false, returnsI1);
        }
      }
    }

    /** The merge at the end of the if `e` of the arm states `aState` and
        `bState`, from the state `before` into `after`, over the nodes
        `graph` and the recorded conditions `conditionMap`. When the
        condition has a node, two conditions follow `conditions`, those
        recorded for `e` before: the condition as a one-bit value and its
        test against zero, and each arm is merged under its own; otherwise
        the arms are merged with none. */
    ghost predicate ArmsMerged(graph: seq<Node>, conditionMap: map<Expr, seq<Ref>>, after: seq<Ref>,
                               aState: seq<Ref>, bState: seq<Ref>, condition: Ref, e: Expr,
                               conditions: seq<Ref>, before: seq<Ref>)
      requires ValidFunction(func)
    {
      if condition.Bad? then
        Wide(Live([FlowState(aState, Bad), FlowState(bState, Bad)]), NumLocals(func))
        && Merged(graph, Live([FlowState(aState, Bad), FlowState(bState, Bad)]), NumLocals(func), before, after, returnsI1)
      else
        condition.index < |graph|
        && e in conditionMap && |conditionMap[e]| == |conditions| + 2
        && conditionMap[e][..|conditions|] == conditions
        && IsInteger(typeOf(graph[condition.index]))
        && var t := typeOf(graph[condition.index]);
           var ifTrue := conditionMap[e][|conditions|];
           var ifFalse := conditionMap[e][|conditions| + 1];
           (returnsI1(graph[condition.index]) ==> ifTrue == condition)
           && (!returnsI1(graph[condition.index]) ==> ZeroCompFor(graph, ifTrue, condition, t, false, returnsI1))
           && ZeroCompFor(graph, ifFalse, condition, t, true, returnsI1)
           && Wide(Live([FlowState(aState, ifTrue), FlowState(bState, ifFalse)]), NumLocals(func))
           && Merged(graph, Live([FlowState(aState, ifTrue), FlowState(bState, ifFalse)]), NumLocals(func),
                     before, after, returnsI1)
    }

    /** Everything but the nodes, the locals and the recorded conditions is
        unchanged. */
    twostate predicate OnlyConditions()
      reads this
    {
      breakStates == old(breakStates) && sets == old(sets) && setNodeMap == old(setNodeMap)
      && parentMap == old(parentMap) && parent == old(parent)
    }

    /** The two conditions of the arms of `e`, appended to those recorded for
        it: the condition as a one-bit value, and its test against zero. */
    method MakeIfConditions(condition: Ref, e: Expr) returns (ifTrue: Ref, ifFalse: Ref)
      requires Valid() && condition.At? && condition.index < |nodes|
      modifies this
      ensures Valid() && old(nodes) <= nodes && OnlyConditions() && locals == old(locals)
      ensures RefOk(ifTrue, |nodes|) && RefOk(ifFalse, |nodes|)
      ensures expressionConditionMap == old(expressionConditionMap)[e := Lookup(old(expressionConditionMap), e) + [ifTrue, ifFalse]]
      ensures returnsI1(old(nodes)[condition.index]) ==> ifTrue == condition
      ensures !returnsI1(old(nodes)[condition.index]) ==>
                ZeroCompFor(nodes, ifTrue, condition, typeOf(old(nodes)[condition.index]), false, returnsI1)
      ensures ZeroCompFor(nodes, ifFalse, condition, typeOf(old(nodes)[condition.index]), true, returnsI1)
    {
      // both are appended once made; making them does not read the map
      ifTrue := EnsureI1(condition);
      ghost var mid := nodes;
      ifFalse := MakeZeroComp(condition, true);
      if !returnsI1(old(nodes)[condition.index]) {
        ZeroCompGrow(mid, nodes, ifTrue, condition, typeOf(old(nodes)[condition.index]), false, returnsI1);
      }
      expressionConditionMap := expressionConditionMap[e := Lookup(expressionConditionMap, e) + [ifTrue, ifFalse]];
    }

    /** The merge at the end of a named block that is branched to: every
        recorded state, none under a condition. */
    method MergeBlock(localses: seq<seq<Ref>>)
      requires Valid() && forall k :: 0 <= k < |localses| ==> StateOk(localses[k], NumLocals(func), |nodes|)
      requires (forall k :: 0 <= k < |localses| ==> |localses[k]| == 0) ==> |locals| == 0
      modifies this
      ensures Valid() && Records() && old(nodes) <= nodes
      ensures Wide(Live(BlockStates(localses)), NumLocals(func))
      ensures Merged(nodes, Live(BlockStates(localses)), NumLocals(func), old(locals), locals, returnsI1)
    {
      var states: seq<FlowState> := [];
      var k := 0;
      while k < |localses|
        invariant 0 <= k <= |localses| && |states| == k
        invariant forall m :: 0 <= m < k ==> states[m] == FlowState(localses[m], Bad)
      {
        states := states + [FlowState(localses[k], Bad)];
        k := k + 1;
      }
      assert states == BlockStates(localses);
      Merge(states);
    }


    // -------------------------------------------------------------------------
    // The walk, stated on snapshots

    /** The builder's state as a value. */
    ghost function Snap(): Snapshot
      reads this
    {
      Snapshot(nodes, locals, breakStates, sets, setNodeMap, parentMap, expressionConditionMap, parent)
    }

    /** The state inside the control-flow node `e` entered from `s`: the
        parent of `e` recorded, and `e` the parent. */
    ghost function Enter(s: Snapshot, e: Expr): Snapshot
    {
      s.(parentMap := s.parentMap[e := s.parent], parent := Some(e))
    }

    /** Walking `e` from the state `s` can end in the state `t` with `r` as
        the node of `e`'s value. Each kind is walked as its visitor walks
        it, and every state between two steps is one the walk of the step
        before can end in. Merges are pinned down by `Merged` and zero tests
        by `ZeroCompFor`, which fix the nodes they promise but allow other
        new nodes beside them; everything else is exact. */
    ghost predicate Walks(e: Expr, s: Snapshot, t: Snapshot, r: Ref)
      requires ValidFunction(func)
      decreases e, 3
    {
      if e.Block? then WalksBlock(e, s, t) && r == Bad
      else if e.If? then WalksIf(e, s, t) && r == Bad
      else if e.Loop? then WalksLoop(e, s, t) && r == Bad
      else if e.Break? then
        // the value and the condition are constants or gets in flat IR
        t == s.(breakStates := s.breakStates[e.name := Lookup(s.breakStates, e.name) + [s.locals]],
                locals := if e.optCondition.None? then [] else s.locals)
        && r == Bad
      else if e.Switch? then
        t == s.(breakStates := RecordedAll(s.breakStates, Distinct(e.targets) + {e.defaultTarget}, s.locals),
                locals := [])
        && r == Bad
      else if e.Return? || e.Unreachable? then t == s.(locals := []) && r == Bad
      else if e.Call? || e.CallImport? || e.CallIndirect? || e.GetGlobal? || e.Load? then UnknownValue(e.ty, s, t, r)
      else if e.GetLocal? then
        t == s
        && r == (if e.index < NumLocals(func) && IsRelevantType(LocalType(func, e.index)) && |s.locals| > 0
                    && e.index < |s.locals|
                 then s.locals[e.index] else Bad)
      else if e.SetLocal? then WalksSetLocal(e, s, t) && r == Bad
      else if e.Const? then t == s.(nodes := s.nodes + [Node(ExprNode(e), [])]) && r == At(|s.nodes|)
      else if e.Unary? then WalksUnary(e, s, t, r)
      else if e.Binary? then WalksBinary(e.binaryOp, e.left, e.right, e.ty, e, s, t, r)
      else if e.Select? then WalksSelect(e, s, t, r)
      else t == s && r == Bad
    }

    /** `r` is a value that could be anything, of type `ty`: a new Var node
        for a tracked type, Bad and no new node for any other. */
    ghost predicate UnknownValue(ty: Type, s: Snapshot, t: Snapshot, r: Ref)
    {
      if IsRelevantType(ty) then t == s.(nodes := s.nodes + [Node(Var(ty), [])]) && r == At(|s.nodes|)
      else t == s && r == Bad
    }

    /** `r` is `node` as a value of its wasm type: a one-bit result gets a new
        zero extension, any other node, Bad included, is itself. */
    ghost predicate Expanded(node: Ref, s: Snapshot, t: Snapshot, r: Ref)
    {
      if node.At? && node.index < |s.nodes| && returnsI1(s.nodes[node.index]) then
        t == s.(nodes := s.nodes + [Node(Zext, [node])]) && r == At(|s.nodes|)
      else t == s && r == node
    }

    /** The operand `e` walked, and its node as a value of its wasm type. */
    ghost predicate WalksExpanded(e: Expr, s: Snapshot, t: Snapshot, r: Ref)
      requires ValidFunction(func)
      decreases e, 4
    {
      exists afterOperand, node :: Walks(e, s, afterOperand, node) && Expanded(node, afterOperand, t, r)
    }

    /** `r` tests `node` against zero, for equality or inequality; only
        nodes are added. */
    ghost predicate ZeroCompared(node: Ref, equal: bool, s: Snapshot, t: Snapshot, r: Ref)
    {
      t == s.(nodes := t.nodes) && s.nodes <= t.nodes && node.At? && node.index < |s.nodes|
      && IsInteger(typeOf(s.nodes[node.index]))
      && ZeroCompFor(t.nodes, r, node, typeOf(s.nodes[node.index]), equal, returnsI1)
    }

    /** `r` is `node` as a one-bit condition: a one-bit result is kept, any
        other value is tested against zero, and Bad stays Bad. */
    ghost predicate AsCondition(node: Ref, s: Snapshot, t: Snapshot, r: Ref)
    {
      if node.Bad? then t == s && r == Bad
      else if node.index < |s.nodes| && returnsI1(s.nodes[node.index]) then t == s && r == node
      else ZeroCompared(node, false, s, t, r)
    }

    /** A block: its children in order from the state inside it, then its
        end, and the parent restored. */
    ghost predicate WalksBlock(e: Expr, s: Snapshot, t: Snapshot)
      requires ValidFunction(func) && e.Block?
      decreases e, 2
    {
      exists afterList, ended ::
        WalksList(e, |e.list|, Enter(s, e), afterList) && BlockEnded(e.name, afterList, ended)
        && t == ended.(parent := s.parent)
    }

    /** The first `k` children of the block `e`, walked in order from `s`. */
    ghost predicate WalksList(e: Expr, k: nat, s: Snapshot, t: Snapshot)
      requires ValidFunction(func) && e.Block? && k <= |e.list|
      decreases e, 1, k
    {
      if k == 0 then t == s
      else
        var i := k - 1;
        exists before, r :: WalksList(e, i, s, before) && Walks(e.list[i], before, t, r)
    }

    /** The end of a block named `name`: if some branch recorded a state for
        the name, the state flowing out of the end joins the recorded ones
        and they are merged; otherwise nothing changes. */
    ghost predicate BlockEnded(name: Label, s: Snapshot, t: Snapshot)
      requires ValidFunction(func)
    {
      if !name.Unnamed? && name in s.breakStates then
        var recorded := s.breakStates[name] + [s.locals];
        t == s.(nodes := t.nodes, locals := t.locals, breakStates := s.breakStates[name := recorded])
        && s.nodes <= t.nodes && Wide(Live(BlockStates(recorded)), NumLocals(func))
        && Merged(t.nodes, Live(BlockStates(recorded)), NumLocals(func), s.locals, t.locals, returnsI1)
      else t == s
    }

    /** An if: its condition from the state inside it, then its arms, and
        the parent restored. */
    ghost predicate WalksIf(e: Expr, s: Snapshot, t: Snapshot)
      requires ValidFunction(func) && e.If?
      decreases e, 2
    {
      exists afterCondition, condition, merged ::
        Walks(e.condition, Enter(s, e), afterCondition, condition) && ArmsWalk(e, condition, afterCondition, merged)
        && t == merged.(parent := s.parent)
    }

    /** The arms of the if `e` whose condition gave `condition`: the first
        from `s`, the state after the condition, then the else arm, if there
        is one, and the merge of the states after them; without an else arm
        the state of `s` is merged with the first arm's. */
    ghost predicate ArmsWalk(e: Expr, condition: Ref, s: Snapshot, t: Snapshot)
      requires ValidFunction(func) && e.If?
      decreases e, 1
    {
      exists afterTrue, r :: Walks(e.ifTrue, s, afterTrue, r)
        && (if e.ifFalse.None? then IfMerged(e, condition, s.locals, afterTrue.locals, afterTrue, t)
            else ElseWalk(e, condition, s.locals, afterTrue, t))
    }

    /** The else arm of `e` from `initial`, the state before the arms, once
        the first arm has ended in `s`, and the merge of the two arms'
        states. */
    ghost predicate ElseWalk(e: Expr, condition: Ref, initial: seq<Ref>, s: Snapshot, t: Snapshot)
      requires ValidFunction(func) && e.If? && e.ifFalse.Some?
      decreases e, 0
    {
      exists afterFalse, r :: Walks(e.ifFalse.value, s.(locals := initial), afterFalse, r)
        && IfMerged(e, condition, s.locals, afterFalse.locals, afterFalse, t)
    }

    /** The merge at the end of the if `e` of the arm states `aState` and
        `bState`, from `s`: `ArmsMerged`, and nothing else changes but the
        conditions recorded for `e`. */
    ghost predicate IfMerged(e: Expr, condition: Ref, aState: seq<Ref>, bState: seq<Ref>, s: Snapshot, t: Snapshot)
      requires ValidFunction(func)
    {
      t == s.(nodes := t.nodes, locals := t.locals, conditions := t.conditions) && s.nodes <= t.nodes
      && (condition.Bad? ==> t.conditions == s.conditions)
      && (condition.At? ==> e in t.conditions && t.conditions == s.conditions[e := t.conditions[e]])
      && ArmsMerged(t.nodes, t.conditions, t.locals, aState, bState, condition, e, Lookup(s.conditions, e), s.locals)
    }

    /** A loop. An unnamed one, or one entered on an unreachable path, is its
        body. A named one gives every local a fresh Var, walks its body, and
        is resolved. */
    ghost predicate WalksLoop(e: Expr, s: Snapshot, t: Snapshot)
      requires ValidFunction(func) && e.Loop?
      decreases e, 2
    {
      if e.name.Unnamed? || |s.locals| == 0 then exists r :: Walks(e.body, s, t, r)
      else exists withVars :: LoopEntered(s, withVars) && LoopBodyWalks(e, s.locals, withVars, t)
    }

    /** Every local given a fresh Var (Bad for an untracked type); nothing
        else changes but the nodes. */
    ghost predicate LoopEntered(s: Snapshot, t: Snapshot)
      requires ValidFunction(func)
    {
      t == s.(nodes := t.nodes, locals := t.locals) && s.nodes <= t.nodes && |t.locals| == NumLocals(func)
      && forall i :: 0 <= i < NumLocals(func) ==> LoopVar(t.nodes, |s.nodes|, i, t.locals[i])
    }

    /** The body of the named loop `e`, entered with the state `previous`,
        walked from `withVars`, and the end of the loop. */
    ghost predicate LoopBodyWalks(e: Expr, previous: seq<Ref>, withVars: Snapshot, t: Snapshot)
      requires ValidFunction(func) && e.Loop?
      decreases e, 1
    {
      exists afterBody, r :: Walks(e.body, withVars, afterBody, r) && LoopEnded(e.name, previous, withVars, afterBody, t)
    }

    /** The end of the named loop `name` entered with the state `previous`,
        whose body was walked from `withVars`, every local a fresh Var, to
        `s`. The states recorded for the name (an empty entry if none were)
        decide, local by local, whether its Var is undone in the state and in
        the nodes made since `withVars`. */
    ghost predicate LoopEnded(name: Label, previous: seq<Ref>, withVars: Snapshot, s: Snapshot, t: Snapshot)
      requires ValidFunction(func)
    {
      var breaks := Lookup(s.breakStates, name);
      |previous| == NumLocals(func) && |withVars.locals| == NumLocals(func)
      && t == s.(nodes := ResolvedNodes(s.nodes, |withVars.nodes|, withVars.locals, previous, breaks, NumLocals(func)),
                 locals := Resolve(s.locals, withVars.locals, previous, breaks, NumLocals(func)),
                 breakStates := s.breakStates[name := breaks])
    }

    /** A set of a tracked local on a reachable path: the set recorded with
        its parent, its value walked, and the value's node given to the
        local and recorded for the set. Any other set changes nothing. */
    ghost predicate WalksSetLocal(e: Expr, s: Snapshot, t: Snapshot)
      requires ValidFunction(func) && e.SetLocal?
      decreases e, 2
    {
      if e.index < NumLocals(func) && IsRelevantType(LocalType(func, e.index)) && |s.locals| > 0 then
        var recorded := s.(sets := s.sets + [e], parentMap := s.parentMap[e := s.parent]);
        exists afterValue, v ::
          Walks(e.value, recorded, afterValue, v)
          && e.index < |afterValue.locals|
          && t == afterValue.(locals := afterValue.locals[e.index := v], setNodeMap := afterValue.setNodeMap[e := v])
      else t == s
    }

    /** A unary operation: a counting one gets a node on its operand as a
        value of its wasm type, a test for zero a comparison of that value
        with zero, and an operand with no node gives none; any other
        operation is an unknown value, its operand not walked. */
    ghost predicate WalksUnary(e: Expr, s: Snapshot, t: Snapshot, r: Ref)
      requires ValidFunction(func) && e.Unary?
      decreases e, 2
    {
      if e.unaryOp in {ClzInt32, ClzInt64, CtzInt32, CtzInt64, PopcntInt32, PopcntInt64} then
        exists afterValue, value :: WalksExpanded(e.value, s, afterValue, value)
          && (value.Bad? ==> t == afterValue && r == Bad)
          && (value.At? ==>
                t == afterValue.(nodes := afterValue.nodes + [Node(ExprNode(e), [value])]) && r == At(|afterValue.nodes|))
      else if e.unaryOp in {EqZInt32, EqZInt64} then
        exists afterValue, value :: WalksExpanded(e.value, s, afterValue, value)
          && (value.Bad? ==> t == afterValue && r == Bad)
          && (value.At? ==> ZeroCompared(value, true, afterValue, t, r))
      else UnknownValue(e.ty, s, t, r)
    }

    /** A binary operation on `left` and `right` (inside `top`, for
        termination): a supported one as `SupportedWalks` says, a
        greater-than comparison as the mirrored less-than on the swapped
        operands, any other as an unknown value, its operands not walked. */
    ghost predicate WalksBinary(op: BinaryOp, left: Expr, right: Expr, ty: Type, top: Expr,
                                s: Snapshot, t: Snapshot, r: Ref)
      requires ValidFunction(func) && left < top && right < top
      decreases top, 2, if IsGreater(op) then 1 else 0
    {
      if IsSupportedBinary(op) then SupportedWalks(op, left, right, ty, top, s, t, r)
      else if IsGreater(op) then WalksBinary(Flip(op), right, left, ty, top, s, t, r)
      else UnknownValue(ty, s, t, r)
    }

    /** A supported binary operation: its left operand as a value of its
        wasm type, and if that has no node, no node and the right operand
        not walked. */
    ghost predicate SupportedWalks(op: BinaryOp, left: Expr, right: Expr, ty: Type, top: Expr,
                                   s: Snapshot, t: Snapshot, r: Ref)
      requires ValidFunction(func) && left < top && right < top
      decreases top, 1
    {
      exists afterLeft, leftValue :: WalksExpanded(left, s, afterLeft, leftValue)
        && (leftValue.Bad? ==> t == afterLeft && r == Bad)
        && (leftValue.At? ==> RightWalks(op, left, right, ty, top, leftValue, afterLeft, t, r))
    }

    /** The rest of a supported binary operation once its left operand gave
        `leftValue`: its right operand as a value of its wasm type, and a
        node on the two when that has a node. */
    ghost predicate RightWalks(op: BinaryOp, left: Expr, right: Expr, ty: Type, top: Expr, leftValue: Ref,
                               s: Snapshot, t: Snapshot, r: Ref)
      requires ValidFunction(func) && right < top
      decreases top, 0
    {
      exists afterRight, rightValue :: WalksExpanded(right, s, afterRight, rightValue)
        && (rightValue.Bad? ==> t == afterRight && r == Bad)
        && (rightValue.At? ==>
              t == afterRight.(nodes := afterRight.nodes + [Node(ExprNode(Binary(op, left, right, ty)), [leftValue, rightValue])])
              && r == At(|afterRight.nodes|))
    }

    /** A select: its values in order, each as a value of its wasm type,
        then its condition; the first with no node ends the select with
        none, and those after it are not walked. */
    ghost predicate WalksSelect(e: Expr, s: Snapshot, t: Snapshot, r: Ref)
      requires ValidFunction(func) && e.Select?
      decreases e, 2
    {
      exists afterTrue, ifTrue :: WalksExpanded(e.trueValue, s, afterTrue, ifTrue)
        && (ifTrue.Bad? ==> t == afterTrue && r == Bad)
        && (ifTrue.At? ==> FalseValueWalks(e, ifTrue, afterTrue, t, r))
    }

    /** The rest of the select `e` once its first value gave `ifTrue`: its
        second value as a value of its wasm type, and if that has a node,
        the rest of it. */
    ghost predicate FalseValueWalks(e: Expr, ifTrue: Ref, s: Snapshot, t: Snapshot, r: Ref)
      requires ValidFunction(func) && e.Select?
      decreases e, 1, 1
    {
      exists afterFalse, ifFalse :: WalksExpanded(e.falseValue, s, afterFalse, ifFalse)
        && (ifFalse.Bad? ==> t == afterFalse && r == Bad)
        && (ifFalse.At? ==> SelectConditionWalks(e, ifTrue, ifFalse, afterFalse, t, r))
    }

    /** The rest of the select `e` once its values gave `ifTrue` and
        `ifFalse`: its condition as a one-bit value, and a node on the three
        when that has a node. */
    ghost predicate SelectConditionWalks(e: Expr, ifTrue: Ref, ifFalse: Ref, s: Snapshot, t: Snapshot, r: Ref)
      requires ValidFunction(func) && e.Select?
      decreases e, 1, 0
    {
      exists afterCondition, node, checked, condition ::
        Walks(e.condition, s, afterCondition, node) && AsCondition(node, afterCondition, checked, condition)
        && (condition.Bad? ==> t == checked && r == Bad)
        && (condition.At? ==>
              t == checked.(nodes := checked.nodes + [Node(ExprNode(e), [condition, ifTrue, ifFalse])])
              && r == At(|checked.nodes|))
    }

    // -------------------------------------------------------------------------
    // Visiting

    /** Visits `e`, returning the node of its value (Bad when it has none
        the builder tracks). */
    method Visit(e: Expr) returns (r: Ref)
      requires Valid() && WellFormed(e, NumLocals(func))
      modifies this
      decreases e, 3
      ensures Walked(e, r) && Kept(e) && Walks(e, old(Snap()), Snap(), r)
      ensures e.Block? || e.If? || e.Loop? || e.Break? || e.Switch? || e.Return? || e.Unreachable? ==> r == Bad
    {
      if e.Block? || e.If? || e.Loop? || e.Break? || e.Switch? || e.Return? || e.Unreachable? {
        r := VisitControl(e);
      } else {
        r := VisitOperation(e);
      }
    }

    method VisitControl(e: Expr) returns (r: Ref)
      requires e.Block? || e.If? || e.Loop? || e.Break? || e.Switch? || e.Return? || e.Unreachable?
      requires Valid() && WellFormed(e, NumLocals(func))
      modifies this
      decreases e, 2
      ensures Walked(e, r) && Kept(e) && r == Bad && Walks(e, old(Snap()), Snap(), r)
    {
      match e
      case Block(_, _, _) => r := VisitBlock(e);
      case If(_, _, _, _) => r := VisitIf(e);
      case Loop(_, _, _) => r := VisitLoop(e);
      case Break(_, _, _, _) => r := VisitBreak(e);
      case Switch(_, _, _, _, _, _) => r := VisitSwitch(e);
      case Return(_, _) =>
        EndsOrControl(e);
        // the value is a constant or a get in flat IR, and is not needed
        SetInUnreachable();
        r := Bad;
      case Unreachable(_) =>
        EndsOrControl(e);
        SetInUnreachable();
        r := Bad;
    }

    method VisitOperation(e: Expr) returns (r: Ref)
      requires !(e.Block? || e.If? || e.Loop? || e.Break? || e.Switch? || e.Return? || e.Unreachable?)
      requires Valid() && WellFormed(e, NumLocals(func))
      modifies this
      decreases e, 2
      ensures Walked(e, r) && Kept(e) && Walks(e, old(Snap()), Snap(), r)
    {
      if e.Call? || e.CallImport? || e.CallIndirect? || e.GetGlobal? || e.Load? {
        r := MakeVar(e.ty);
      } else if e.GetLocal? {
        r := VisitGetLocal(e);
      } else if e.SetLocal? {
        r := VisitSetLocal(e);
      } else if e.Const? {
        r := AddNode(Node(ExprNode(e), []));
      } else if e.Unary? {
        r := VisitUnary(e);
      } else if e.Binary? {
        assert e.left == Children(e)[0] && e.right == Children(e)[1];
        r := VisitBinary(e.binaryOp, e.left, e.right, e.ty, e);
      } else if e.Select? {
        r := VisitSelect(e);
      } else {
        // global sets, stores, atomics, drops, host calls and nops
        r := Bad;
      }
    }

    /** The node of the operand `e` as a value of its wasm type. */
    method VisitExpanded(e: Expr) returns (r: Ref)
      requires Valid() && WellFormed(e, NumLocals(func))
      modifies this
      decreases e, 4
      ensures Walked(e, r) && Kept(e) && WalksExpanded(e, old(Snap()), Snap(), r)
    {
      var v := Visit(e);
      ghost var afterOperand := Snap();
      r := ExpandFromI1(v);
      assert Walks(e, old(Snap()), afterOperand, v) && Expanded(v, afterOperand, Snap(), r);
    }

    /** A block: its children in order, then its end. */
    method VisitBlock(e: Expr) returns (r: Ref)
      requires e.Block? && Valid() && WellFormed(e, NumLocals(func))
      modifies this
      decreases e, 1
      ensures Walked(e, r) && Kept(e) && r == Bad
      ensures e in parentMap && parentMap[e] == old(parent)
      ensures WalksBlock(e, old(Snap()), Snap())
    {
      EndsOrControl(e);
      var oldParent := parent;
      parentMap := parentMap[e := oldParent];
      parent := Some(e);
      assert Snap() == Enter(old(Snap()), e);
      VisitList(e);
      ghost var afterList := Snap();
      EndBlock(e.name);
      ghost var ended := Snap();
      parent := oldParent;
      r := Bad;
      assert WalksList(e, |e.list|, Enter(old(Snap()), e), afterList) && BlockEnded(e.name, afterList, ended);
    }

    /** The children of the block `e`, in order. */
    method VisitList(e: Expr)
      requires e.Block? && Valid() && WellFormed(e, NumLocals(func)) && e in parentMap
      modifies this
      decreases e, 0
      ensures Walked(e, Bad) && Kept(e) && e in parentMap && parentMap[e] == old(parentMap)[e]
      ensures WalksList(e, |e.list|, old(Snap()), Snap())
    {
      EndsOrControl(e);
      var k := 0;
      while k < |e.list|
        invariant 0 <= k <= |e.list|
        invariant Valid() && old(nodes) <= nodes && old(sets) <= sets && parent == old(parent)
        invariant Kept(e) && e in parentMap && parentMap[e] == old(parentMap)[e]
        invariant WalksList(e, k, old(Snap()), Snap())
      {
        assert e.list[k] == Children(e)[k];
        ghost var before := Snap();
        var v := Visit(e.list[k]);
        assert WalksList(e, k, old(Snap()), before) && Walks(e.list[k], before, Snap(), v);
        assert WalksList(e, k + 1, old(Snap()), Snap());
        k := k + 1;
      }
    }

    /** The end of a block named `name`: if some branch recorded a state
        for it, the state flowing out of the end joins them and they are
        merged. */
    method EndBlock(name: Label)
      requires Valid()
      modifies this
      ensures Valid() && old(nodes) <= nodes && parent == old(parent)
      ensures sets == old(sets) && setNodeMap == old(setNodeMap) && parentMap == old(parentMap)
      ensures expressionConditionMap == old(expressionConditionMap)
      ensures BlockEnded(name, old(Snap()), Snap())
    {
      if !name.Unnamed? && name in breakStates {
        // the state flowing out of the end is one more path
        var states := breakStates[name] + [locals];
        assert states[|states| - 1] == locals;
        breakStates := breakStates[name := states];
        MergeBlock(states);
      }
    }

    /** An if: the condition, then the arms and their merge. */
    method VisitIf(e: Expr) returns (r: Ref)
      requires e.If? && Valid() && WellFormed(e, NumLocals(func))
      modifies this
      decreases e, 1
      ensures Walked(e, r) && Kept(e) && r == Bad
      ensures e in parentMap && parentMap[e] == old(parent)
      ensures WalksIf(e, old(Snap()), Snap())
    {
      EndsOrControl(e);
      var oldParent := parent;
      parentMap := parentMap[e := oldParent];
      parent := Some(e);
      assert Snap() == Enter(old(Snap()), e);
      assert e.condition == Children(e)[0];
      var c := Visit(e.condition);
      ghost var afterCondition := Snap();
      VisitArms(e, c);
      ghost var merged := Snap();
      parent := oldParent;
      r := Bad;
      assert Walks(e.condition, Enter(old(Snap()), e), afterCondition, c) && ArmsWalk(e, c, afterCondition, merged);
    }

    /** The arms of the if `e` whose condition gave `condition`, each from
        the state on entry, and the merge after them. */
    method VisitArms(e: Expr, condition: Ref)
      requires e.If? && Valid() && WellFormed(e, NumLocals(func)) && RefOk(condition, |nodes|)
      modifies this
      decreases e, 0, 1
      ensures Walked(e, Bad) && Kept(e)
      ensures e in old(parentMap) ==> e in parentMap && parentMap[e] == old(parentMap)[e]
      ensures ArmsWalk(e, condition, old(Snap()), Snap())
    {
      EndsOrControl(e);
      assert e.ifTrue == Children(e)[1];
      var initialState := locals;
      ghost var n := |nodes|;
      var v := Visit(e.ifTrue);
      ghost var afterTrue := Snap();
      AllOkGrow(initialState, n, |nodes|);
      if e.ifFalse.Some? {
        VisitElse(e, condition, initialState);
      } else {
        MergeIf(initialState, locals, condition, e);
      }
      assert Walks(e.ifTrue, old(Snap()), afterTrue, v);
    }

    /** The else arm of `e`, from `initialState`, the state before the
        arms, and the merge of the state after the first arm with the state
        after it. */
    method VisitElse(e: Expr, condition: Ref, initialState: seq<Ref>)
      requires e.If? && e.ifFalse.Some? && Valid() && WellFormed(e, NumLocals(func)) && RefOk(condition, |nodes|)
      requires StateOk(initialState, NumLocals(func), |nodes|)
      modifies this
      decreases e, 0, 0
      ensures Walked(e, Bad) && Kept(e)
      ensures e in old(parentMap) ==> e in parentMap && parentMap[e] == old(parentMap)[e]
      ensures ElseWalk(e, condition, initialState, old(Snap()), Snap())
    {
      EndsOrControl(e);
      assert e.ifFalse.value == Children(e)[2];
      var afterIfTrueState := locals;
      locals := initialState;
      ghost var n := |nodes|;
      ghost var fromInitial := Snap();
      var v := Visit(e.ifFalse.value);
      ghost var afterFalse := Snap();
      AllOkGrow(afterIfTrueState, n, |nodes|);
      MergeIf(afterIfTrueState, locals, condition, e);
      assert fromInitial == old(Snap()).(locals := initialState);
      assert Walks(e.ifFalse.value, fromInitial, afterFalse, v);
    }

    /** A loop: an unnamed one, or one entered on an unreachable path, is
        just its body; a named one is `VisitNamedLoop`. The source's scan
        of the recorded states skips paths from unreachable code (the loop
        as written indexes both empty states). */
    method VisitLoop(e: Expr) returns (r: Ref)
      requires e.Loop? && Valid() && WellFormed(e, NumLocals(func))
      modifies this
      decreases e, 1
      ensures Walked(e, r) && Kept(e) && r == Bad
      ensures WalksLoop(e, old(Snap()), Snap())
    {
      EndsOrControl(e);
      assert e.body == Children(e)[0];
      if e.name.Unnamed? || |locals| == 0 {
        var v := Visit(e.body);
        return Bad;
      }
      VisitNamedLoop(e);
      r := Bad;
    }

    /** A named loop entered on a reachable path: every local gets a fresh
        Var, the body is walked, and the loop is resolved. */
    method VisitNamedLoop(e: Expr)
      requires e.Loop? && !e.name.Unnamed? && Valid() && WellFormed(e, NumLocals(func)) && |locals| > 0
      modifies this
      decreases e, 0
      ensures Walked(e, Bad) && Kept(e)
      ensures WalksLoop(e, old(Snap()), Snap())
    {
      EndsOrControl(e);
      assert e.body == Children(e)[0];
      var previousState := locals;
      MakeLoopVars();
      ghost var withVars := Snap();
      var varsState := locals;
      // only nodes created from here on may need their Vars undone
      var firstNodeFromLoop := |nodes|;
      var v := Visit(e.body);
      ghost var afterBody := Snap();
      if e.name !in breakStates {
        breakStates := breakStates[e.name := []];
      }
      var breaks := breakStates[e.name];
      assert breakStates == afterBody.breakStates[e.name := Lookup(afterBody.breakStates, e.name)];
      AllOkGrow(previousState, firstNodeFromLoop, |nodes|);
      ResolveLoop(previousState, varsState, firstNodeFromLoop, breaks);
      assert withVars.nodes == afterBody.nodes[..firstNodeFromLoop] == nodes[..firstNodeFromLoop];
      assert old(nodes) <= withVars.nodes <= nodes;
      assert Walks(e.body, withVars, afterBody, v) && LoopEnded(e.name, previousState, withVars, afterBody, Snap());
      assert LoopEntered(old(Snap()), withVars);
    }

    /** Entry `i` of the state on entry to a named loop, with `base` nodes
        before it: a fresh Var for a tracked local, Bad for any other. */
    ghost predicate LoopVar(graph: seq<Node>, base: nat, i: nat, r: Ref)
      requires ValidFunction(func) && i < NumLocals(func)
    {
      var t := LocalType(func, i);
      if IsRelevantType(t) then r.At? && base <= r.index < |graph| && graph[r.index] == Node(Var(t), [])
      else r == Bad
    }

    /** Gives every local a fresh Var on entry to a named loop. */
    method MakeLoopVars()
      requires Valid() && |locals| == NumLocals(func)
      modifies this
      ensures Valid() && Records() && old(nodes) <= nodes && |locals| == NumLocals(func)
      ensures LoopEntered(old(Snap()), Snap())
      ensures forall i, j :: 0 <= i < j < |locals| && locals[i].At? && locals[j].At? ==> locals[i].index < locals[j].index
    {
      var i := 0;
      while i < NumLocals(func)
        invariant 0 <= i <= NumLocals(func) && |locals| == NumLocals(func)
        invariant Valid() && Records() && old(nodes) <= nodes
        invariant forall k :: 0 <= k < i ==> LoopVar(nodes, |old(nodes)|, k, locals[k])
        invariant forall k, j :: 0 <= k < j < i && locals[k].At? && locals[j].At? ==> locals[k].index < locals[j].index
      {
        var v := MakeVar(LocalType(func, i));
        locals := locals[i := v];
        i := i + 1;
      }
    }

    /** The end of a named loop: for each local in order, the scan for a
        path that needs a phi, and where none does, the Var undone in the
        nodes created since `first` and in the state. */
    method ResolveLoop(previous: seq<Ref>, vars: seq<Ref>, first: nat, breaks: seq<seq<Ref>>)
      requires Valid() && |previous| == NumLocals(func) && |vars| == NumLocals(func)
      requires AllOk(previous, |nodes|) && first <= |nodes|
      modifies this
      ensures Valid() && Records() && |nodes| == |old(nodes)| && nodes[..first] == old(nodes)[..first]
      ensures locals == Resolve(old(locals), vars, previous, breaks, NumLocals(func))
      ensures forall j :: first <= j < |nodes| ==>
                nodes[j] == Node(old(nodes)[j].kind, Resolve(old(nodes)[j].values, vars, previous, breaks, NumLocals(func)))
      ensures nodes == ResolvedNodes(old(nodes), first, vars, previous, breaks, NumLocals(func))
    {
      var i := 0;
      while i < NumLocals(func)
        invariant 0 <= i <= NumLocals(func)
        invariant Valid() && Records() && |nodes| == |old(nodes)| && nodes[..first] == old(nodes)[..first]
        invariant locals == Resolve(old(locals), vars, previous, breaks, i)
        invariant forall j :: first <= j < |nodes| ==>
                    nodes[j] == Node(old(nodes)[j].kind, Resolve(old(nodes)[j].values, vars, previous, breaks, i))
      {
        ResolveLocal(i, vars[i], previous[i], first, breaks);
        i := i + 1;
      }
      assert nodes[..first] == old(nodes)[..first];
    }

    /** Local `i` of a named loop, whose Var is `v` and whose value before
        the loop was `p`. */
    method ResolveLocal(i: nat, v: Ref, p: Ref, first: nat, breaks: seq<seq<Ref>>)
      requires Valid() && RefOk(p, |nodes|) && first <= |nodes|
      modifies this
      ensures Valid() && Records() && |nodes| == |old(nodes)| && nodes[..first] == old(nodes)[..first]
      ensures locals == if LoopNeedsPhi(breaks, i, v, p) then old(locals) else Substitute(old(locals), v, p)
      ensures forall j :: first <= j < |nodes| ==>
                nodes[j] == Node(old(nodes)[j].kind,
                                 if LoopNeedsPhi(breaks, i, v, p) then old(nodes)[j].values
                                 else Substitute(old(nodes)[j].values, v, p))
    {
      var needPhi := false;
      var b := 0;
      while b < |breaks| && !needPhi
        invariant 0 <= b <= |breaks|
        invariant needPhi <==> exists c :: 0 <= c < b && i < |breaks[c]| && breaks[c][i] != v && breaks[c][i] != p
      {
        // a path from unreachable code holds no state and needs no phi
        if i < |breaks[b]| && breaks[b][i] != v && breaks[b][i] != p {
          needPhi := true;
        }
        b := b + 1;
      }
      if !needPhi {
        var j := first;
        while j < |nodes|
          invariant first <= j <= |nodes| == |old(nodes)|
          invariant Valid() && OnlyNodes() && nodes[..first] == old(nodes)[..first]
          invariant forall m :: first <= m < |nodes| ==>
                      nodes[m] == Node(old(nodes)[m].kind,
                                       if m < j then Substitute(old(nodes)[m].values, v, p) else old(nodes)[m].values)
        {
          SubstituteValues(j, v, p);
          j := j + 1;
        }
        SubstituteLocals(v, p);
      }
    }

    /** Replaces every operand `v` of node `j` by `p`. */
    method SubstituteValues(j: nat, v: Ref, p: Ref)
      requires Valid() && j < |nodes| && RefOk(p, |nodes|)
      modifies this
      ensures Valid() && OnlyNodes()
      ensures nodes == old(nodes)[j := Node(old(nodes)[j].kind, Substitute(old(nodes)[j].values, v, p))]
    {
      ghost var orig := nodes[j].values;
      var k := 0;
      while k < |nodes[j].values|
        invariant 0 <= k <= |orig| && |nodes| == |old(nodes)|
        invariant Valid() && OnlyNodes()
        invariant nodes == old(nodes)[j := Node(old(nodes)[j].kind, nodes[j].values)]
        invariant |nodes[j].values| == |orig|
        invariant forall m :: 0 <= m < |orig| ==> nodes[j].values[m] == if m < k && orig[m] == v then p else orig[m]
      {
        if nodes[j].values[k] == v {
          NodesUpdate(nodes, j, Node(nodes[j].kind, nodes[j].values[k := p]));
          nodes := nodes[j := Node(nodes[j].kind, nodes[j].values[k := p])];
        }
        k := k + 1;
      }
      SubstituteRemoves(orig, v, p);
      assert nodes[j].values == Substitute(orig, v, p);
    }

    /** Replaces every `v` in the current state by `p`. */
    method SubstituteLocals(v: Ref, p: Ref)
      requires Valid() && RefOk(p, |nodes|)
      modifies this
      ensures Valid() && Records() && nodes == old(nodes)
      ensures locals == Substitute(old(locals), v, p)
    {
      var k := 0;
      while k < |locals|
        invariant 0 <= k <= |locals| == |old(locals)|
        invariant Valid() && Records() && nodes == old(nodes)
        invariant forall m :: 0 <= m < |locals| ==> locals[m] == if m < k && old(locals)[m] == v then p else old(locals)[m]
      {
        if locals[k] == v {
          locals := locals[k := p];
        }
        k := k + 1;
      }
      SubstituteRemoves(old(locals), v, p);
      assert locals == Substitute(old(locals), v, p);
    }

    /** A branch: the current state is recorded for its target, and an
        unconditional branch ends the path. */
    method VisitBreak(e: Expr) returns (r: Ref)
      requires e.Break? && Valid()
      modifies this
      ensures Walked(e, r) && r == Bad && nodes == old(nodes)
      ensures breakStates == old(breakStates)[e.name := Lookup(old(breakStates), e.name) + [old(locals)]]
      ensures locals == if e.optCondition.None? then [] else old(locals)
      ensures sets == old(sets) && setNodeMap == old(setNodeMap) && parentMap == old(parentMap)
      ensures expressionConditionMap == old(expressionConditionMap)
    {
      RecordState(e.name);
      if e.optCondition.None? {
        SetInUnreachable();
      }
      r := Bad;
    }

    /** Appends the current state to those recorded for `name`. */
    method RecordState(name: Label)
      requires Valid()
      modifies this
      ensures Valid() && OnlyBreakStates()
      ensures breakStates == old(breakStates)[name := Lookup(old(breakStates), name) + [locals]]
    {
      breakStates := breakStates[name := Lookup(breakStates, name) + [locals]];
    }

    /** A switch: the current state is recorded once for each distinct
        target, the default included, and the path ends. */
    method VisitSwitch(e: Expr) returns (r: Ref)
      requires e.Switch? && Valid()
      modifies this
      ensures Walked(e, r) && r == Bad && nodes == old(nodes) && locals == []
      ensures breakStates == RecordedAll(old(breakStates), Distinct(e.targets) + {e.defaultTarget}, old(locals))
      ensures sets == old(sets) && setNodeMap == old(setNodeMap) && parentMap == old(parentMap)
      ensures expressionConditionMap == old(expressionConditionMap)
    {
      EndsOrControl(e);
      var targets := Distinct(e.targets) + {e.defaultTarget};
      RecordAll(targets);
      SetInUnreachable();
      r := Bad;
    }

    /** Records the current state once for each of `targets`, in any
        order. */
    method RecordAll(targets: set<Label>)
      requires Valid()
      modifies this
      ensures Valid() && OnlyBreakStates()
      ensures breakStates == RecordedAll(old(breakStates), targets, locals)
    {
      var remaining := targets;
      while remaining != {}
        invariant remaining <= targets && Valid() && OnlyBreakStates()
        invariant breakStates == RecordedAll(old(breakStates), targets - remaining, locals)
        decreases |remaining|
      {
        var t :| t in remaining;
        RecordedAllStep(old(breakStates), targets - remaining, t, locals);
        assert targets - (remaining - {t}) == (targets - remaining) + {t};
        RecordState(t);
        remaining := remaining - {t};
      }
      assert targets - remaining == targets;
    }

    /** A get: the node the local holds, or Bad for a local whose type is
        not tracked or on an unreachable path. */
    method VisitGetLocal(e: Expr) returns (r: Ref)
      requires e.GetLocal? && Valid() && e.index < NumLocals(func)
      ensures RefOk(r, |nodes|)
      ensures !IsRelevantType(LocalType(func, e.index)) || |locals| == 0 ==> r == Bad
      ensures IsRelevantType(LocalType(func, e.index)) && |locals| > 0 ==> r == locals[e.index]
    {
      if !IsRelevantType(LocalType(func, e.index)) || |locals| == 0 {
        return Bad;
      }
      r := locals[e.index];
    }

    /** A set of a tracked local on a reachable path: recorded with its
        parent, and the node of its value becomes the local's. Any other set
        changes nothing. */
    method VisitSetLocal(e: Expr) returns (r: Ref)
      requires e.SetLocal? && Valid() && WellFormed(e, NumLocals(func))
      modifies this
      decreases e, 1
      ensures Walked(e, r) && Kept(e) && r == Bad
      ensures WalksSetLocal(e, old(Snap()), Snap())
    {
      StaysReachableSetLocal(e.index, e.value, e.isTee, e.ty);
      if !IsRelevantType(LocalType(func, e.index)) || |locals| == 0 {
        return Bad;
      }
      sets := sets + [e];
      parentMap := parentMap[e := parent];
      ghost var recorded := Snap();
      assert e.value == Children(e)[0];
      var value := Visit(e.value);
      ghost var afterValue := Snap();
      locals := locals[e.index := value];
      setNodeMap := setNodeMap[e := value];
      r := Bad;
      assert recorded == old(Snap()).(sets := old(sets) + [e], parentMap := old(parentMap)[e := old(parent)]);
      assert Walks(e.value, recorded, afterValue, value);
    }

    /** A unary operation: counting operations get a node on their operand
        as a value of its wasm type, a test for zero becomes a comparison of
        that value with zero, and any other is an unknown value. An operand
        with no node gives none. */
    method VisitUnary(e: Expr) returns (r: Ref)
      requires e.Unary? && Valid() && WellFormed(e, NumLocals(func))
      modifies this
      decreases e, 1
      ensures Walked(e, r) && Kept(e) && WalksUnary(e, old(Snap()), Snap(), r)
    {
      StaysReachableUnary(e.unaryOp, e.value, e.ty);
      assert e.value == Children(e)[0];
      if e.unaryOp in {ClzInt32, ClzInt64, CtzInt32, CtzInt64, PopcntInt32, PopcntInt64} {
        var v := VisitExpanded(e.value);
        ghost var afterValue := Snap();
        if v.Bad? {
          return v;
        }
        r := AddNode(Node(ExprNode(e), [v]));
        assert WalksExpanded(e.value, old(Snap()), afterValue, v);
      } else if e.unaryOp in {EqZInt32, EqZInt64} {
        var v := VisitExpanded(e.value);
        ghost var afterValue := Snap();
        if v.Bad? {
          return v;
        }
        r := MakeZeroComp(v, true);
        assert WalksExpanded(e.value, old(Snap()), afterValue, v) && ZeroCompared(v, true, afterValue, Snap(), r);
      } else {
        r := MakeVar(e.ty);
      }
    }

    /** A binary operation on `left` and `right` (inside `top`, for
        termination): a supported one is `VisitSupportedBinary`, a
        greater-than comparison is rebuilt as the mirrored less-than on
        swapped operands, and any other is an unknown value. */
    method VisitBinary(op: BinaryOp, left: Expr, right: Expr, ty: Type, ghost top: Expr) returns (r: Ref)
      requires Valid() && WellFormed(left, NumLocals(func)) && WellFormed(right, NumLocals(func))
      requires left < top && right < top
      modifies this
      decreases top, 1, if IsGreater(op) then 1 else 0
      ensures Walked(Binary(op, left, right, ty), r) && Kept(top)
      ensures WalksBinary(op, left, right, ty, top, old(Snap()), Snap(), r)
    {
      StaysReachableBinary(op, left, right, ty);
      if IsSupportedBinary(op) {
        SupportedNotGreater(op);
        r := VisitSupportedBinary(op, left, right, ty, top);
      } else if IsGreater(op) {
        FlipSupported(op);
        StaysReachableBinary(Flip(op), right, left, ty);
        r := VisitBinary(Flip(op), right, left, ty, top);
      } else {
        r := MakeVar(ty);
      }
    }

    /** A supported binary operation: its left operand, then, when that has
        a node, the rest of it. */
    method VisitSupportedBinary(op: BinaryOp, left: Expr, right: Expr, ty: Type, ghost top: Expr) returns (r: Ref)
      requires Valid() && WellFormed(left, NumLocals(func)) && WellFormed(right, NumLocals(func))
      requires left < top && right < top
      modifies this
      decreases top, 0
      ensures Walked(Binary(op, left, right, ty), r) && Kept(top)
      ensures SupportedWalks(op, left, right, ty, top, old(Snap()), Snap(), r)
    {
      StaysReachableBinary(op, left, right, ty);
      var l := VisitExpanded(left);
      ghost var afterLeft := Snap();
      r := l;
      if !l.Bad? {
        r := VisitRightOperand(op, left, right, ty, top, l);
      }
      assert WalksExpanded(left, old(Snap()), afterLeft, l);
    }

    /** The rest of a supported binary operation once its left operand gave
        the node `leftValue`: its right operand, and a node on the two when
        that has a node. */
    method VisitRightOperand(op: BinaryOp, left: Expr, right: Expr, ty: Type, ghost top: Expr, leftValue: Ref)
      returns (r: Ref)
      requires Valid() && WellFormed(right, NumLocals(func)) && right < top
      requires leftValue.At? && leftValue.index < |nodes|
      modifies this
      decreases top, 0, 0
      ensures Walked(right, r) && Kept(top)
      ensures RightWalks(op, left, right, ty, top, leftValue, old(Snap()), Snap(), r)
    {
      var rv := VisitExpanded(right);
      ghost var afterRight := Snap();
      r := rv;
      if !rv.Bad? {
        r := AddNode(Node(ExprNode(Binary(op, left, right, ty)), [leftValue, rv]));
      }
      assert WalksExpanded(right, old(Snap()), afterRight, rv);
    }

    /** A select: its values, each as a value of its wasm type, then its
        condition; the first with no node ends it. */
    method VisitSelect(e: Expr) returns (r: Ref)
      requires e.Select? && Valid() && WellFormed(e, NumLocals(func))
      modifies this
      decreases e, 1
      ensures Walked(e, r) && Kept(e) && WalksSelect(e, old(Snap()), Snap(), r)
    {
      StaysReachableSelect(e.trueValue, e.falseValue, e.condition, e.ty);
      assert e.trueValue == Children(e)[0];
      var ifTrue := VisitExpanded(e.trueValue);
      ghost var afterTrue := Snap();
      r := ifTrue;
      if !ifTrue.Bad? {
        r := VisitSelectFalse(e, ifTrue);
      }
      assert WalksExpanded(e.trueValue, old(Snap()), afterTrue, ifTrue);
    }

    /** The rest of the select `e` once its first value gave the node
        `ifTrue`: its second value, and the rest when that has a node. */
    method VisitSelectFalse(e: Expr, ifTrue: Ref) returns (r: Ref)
      requires e.Select? && Valid() && WellFormed(e, NumLocals(func))
      requires ifTrue.At? && ifTrue.index < |nodes|
      modifies this
      decreases e, 0, 1
      ensures Walked(e, r) && Kept(e) && FalseValueWalks(e, ifTrue, old(Snap()), Snap(), r)
    {
      StaysReachableSelect(e.trueValue, e.falseValue, e.condition, e.ty);
      assert e.falseValue == Children(e)[1];
      var ifFalse := VisitExpanded(e.falseValue);
      ghost var afterFalse := Snap();
      r := ifFalse;
      if !ifFalse.Bad? {
        r := VisitSelectCondition(e, ifTrue, ifFalse);
      }
      assert WalksExpanded(e.falseValue, old(Snap()), afterFalse, ifFalse);
    }

    /** The rest of the select `e` once its values gave the nodes `ifTrue`
        and `ifFalse`: its condition as a one-bit value, and a node on the
        three when that has a node. */
    method VisitSelectCondition(e: Expr, ifTrue: Ref, ifFalse: Ref) returns (r: Ref)
      requires e.Select? && Valid() && WellFormed(e, NumLocals(func))
      requires ifTrue.At? && ifTrue.index < |nodes| && ifFalse.At? && ifFalse.index < |nodes|
      modifies this
      decreases e, 0, 0
      ensures Walked(e.condition, r) && Kept(e)
      ensures SelectConditionWalks(e, ifTrue, ifFalse, old(Snap()), Snap(), r)
    {
      assert e.condition == Children(e)[2];
      var c := Visit(e.condition);
      ghost var afterCondition := Snap();
      var condition := EnsureI1(c);
      assert Walks(e.condition, old(Snap()), afterCondition, c) && AsCondition(c, afterCondition, Snap(), condition);
      r := condition;
      if !condition.Bad? {
        r := AddNode(Node(ExprNode(e), [condition, ifTrue, ifFalse]));
      }
    }
  }
}
