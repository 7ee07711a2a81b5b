/** The values the DataFlow builder works on: SSA nodes referenced by their
    position in the builder's node list, the local state of a control-flow
    path, and the pure definitions its merges and loops are specified by. */
module DataFlowSpec {
  import opened Wasm

  /** A reference to a node: the one shared Bad node, or the node at a
      position of the builder's list. */
  datatype Ref = Bad | At(index: nat)

  /** What a node is. A phi and a condition point to the block node of their
      merge; an expression node holds the tree node it computes. */
  datatype NodeKind =
    | Var(varType: Type)
    | ExprNode(e: Expr)
    | Phi(block: nat)
    | Cond(block: nat, index: nat)
    | BlockNode
    | Zext

  /** A node: its kind and its operands. */
  datatype Node = Node(kind: NodeKind, values: seq<Ref>)

  /** The function being processed: its parameter and variable types, and
      its body. Locals are numbered parameters first. */
  datatype Function = Function(params: seq<Type>, vars: seq<Type>, body: Expr)

  function NumLocals(f: Function): nat
  {
    |f.params| + |f.vars|
  }

  function LocalType(f: Function, i: nat): Type
    requires i < NumLocals(f)
  {
    if i < |f.params| then f.params[i] else f.vars[i - |f.params|]
  }

  predicate IsParam(f: Function, i: nat)
  {
    i < |f.params|
  }

  predicate IsValueType(t: Type)
  {
    t == i32 || t == i64 || t == f32 || t == f64
  }

  /** Every local has one of the four value types. */
  predicate ValidFunction(f: Function)
  {
    forall i :: 0 <= i < NumLocals(f) ==> IsValueType(LocalType(f, i))
  }

  /** Only integer values are tracked; anything else is Bad. */
  predicate IsRelevantType(t: Type)
  {
    IsInteger(t)
  }

  function ZeroLiteral(t: Type): (r: Literal)
    requires IsValueType(t)
  {
    match t
    case i32 => LitI32(0)
    case i64 => LitI64(0)
    case f32 => LitF32(0)
    case f64 => LitF64(0)
  }

  /** The local state of a path together with the condition under which it
      is taken (Bad when there is none). */
  datatype FlowState = FlowState(locals: seq<Ref>, condition: Ref)

  /** The builder's state between two steps of its walk: the nodes, the
      state of the path being walked, the states recorded for each label,
      the sets seen, the node each set gave, the parent of each control-flow
      node and set, the conditions recorded for each if, and the current
      parent. */
  datatype Snapshot = Snapshot(nodes: seq<Node>, locals: seq<Ref>, breakStates: map<Label, seq<seq<Ref>>>,
                               sets: seq<Expr>, setNodeMap: map<Expr, Ref>, parentMap: map<Expr, Option<Expr>>,
                               conditions: map<Expr, seq<Ref>>, parent: Option<Expr>)

  // ---------------------------------------------------------------------------
  // Well-formed references

  predicate RefOk(r: Ref, n: nat)
  {
    r.Bad? || r.index < n
  }

  predicate AllOk(rs: seq<Ref>, n: nat)
  {
    forall k :: 0 <= k < |rs| ==> RefOk(rs[k], n)
  }

  /** A local state: empty on an unreachable path, one node per local
      otherwise, each an existing node. */
  predicate StateOk(rs: seq<Ref>, numLocals: nat, n: nat)
  {
    (|rs| == 0 || |rs| == numLocals) && AllOk(rs, n)
  }

  predicate KindOk(k: NodeKind, n: nat)
  {
    match k
    case Phi(b) => b < n
    case Cond(b, _) => b < n
    case _ => true
  }

  predicate NodeOk(nd: Node, n: nat)
  {
    KindOk(nd.kind, n) && AllOk(nd.values, n)
  }

  /** Every node refers only to nodes that exist. */
  predicate NodesOk(nodes: seq<Node>)
  {
    forall j :: 0 <= j < |nodes| ==> NodeOk(nodes[j], |nodes|)
  }

  predicate FlowStatesOk(states: seq<FlowState>, numLocals: nat, n: nat)
  {
    forall k :: 0 <= k < |states| ==> StateOk(states[k].locals, numLocals, n) && RefOk(states[k].condition, n)
  }

  predicate BreakStatesOk(bs: map<Label, seq<seq<Ref>>>, numLocals: nat, n: nat)
  {
    forall name :: name in bs ==> forall k :: 0 <= k < |bs[name]| ==> StateOk(bs[name][k], numLocals, n)
  }

  predicate SetMapOk(m: map<Expr, Ref>, n: nat)
  {
    forall e :: e in m ==> RefOk(m[e], n)
  }

  predicate ConditionMapOk(m: map<Expr, seq<Ref>>, n: nat)
  {
    forall e :: e in m ==> AllOk(m[e], n)
  }

  lemma AllOkGrow(rs: seq<Ref>, n: nat, m: nat)
    requires AllOk(rs, n) && n <= m
    ensures AllOk(rs, m)
  {
  }

  lemma BreakStatesGrow(bs: map<Label, seq<seq<Ref>>>, numLocals: nat, n: nat, m: nat)
    requires BreakStatesOk(bs, numLocals, n) && n <= m
    ensures BreakStatesOk(bs, numLocals, m)
  {
  }

  /** Adding a node whose references exist keeps every reference valid. */
  lemma NodesAppend(nodes: seq<Node>, nd: Node)
    requires NodesOk(nodes) && NodeOk(nd, |nodes|)
    ensures NodesOk(nodes + [nd])
  {
    var r := nodes + [nd];
    forall j | 0 <= j < |r|
      ensures NodeOk(r[j], |r|)
    {
      if j < |nodes| {
        assert r[j] == nodes[j];
      }
    }
  }

  lemma NodesUpdate(nodes: seq<Node>, j: nat, nd: Node)
    requires NodesOk(nodes) && j < |nodes| && NodeOk(nd, |nodes|)
    ensures NodesOk(nodes[j := nd])
  {
  }

  // ---------------------------------------------------------------------------
  // Merging

  /** The states that are reachable, in order: unreachable paths need no
      merging. */
  function Live(states: seq<FlowState>): (r: seq<FlowState>)
    ensures |r| <= |states|
    ensures forall k :: 0 <= k < |r| ==> |r[k].locals| > 0 && r[k] in states
    ensures forall k :: 0 <= k < |states| && |states[k].locals| > 0 ==> states[k] in r
  {
    if |states| == 0 then []
    else
      var init := Live(states[..|states| - 1]);
      var last := states[|states| - 1];
      assert forall k :: 0 <= k < |init| ==> init[k] in states by {
        forall k | 0 <= k < |init| ensures init[k] in states {
          var j :| 0 <= j < |states| - 1 && states[..|states| - 1][j] == init[k];
          assert states[j] == init[k];
        }
      }
      if |last.locals| == 0 then init else init + [last]
  }

  lemma LiveOk(states: seq<FlowState>, numLocals: nat, n: nat)
    requires FlowStatesOk(states, numLocals, n)
    ensures FlowStatesOk(Live(states), numLocals, n)
    ensures forall k :: 0 <= k < |Live(states)| ==> |Live(states)[k].locals| == numLocals
  {
    var r := Live(states);
    forall k | 0 <= k < |r|
      ensures StateOk(r[k].locals, numLocals, n) && RefOk(r[k].condition, n)
    {
      var j :| 0 <= j < |states| && states[j] == r[k];
    }
  }

  /** Every state holds `n` nodes. */
  predicate Wide(live: seq<FlowState>, n: nat)
  {
    forall s :: 0 <= s < |live| ==> |live[s].locals| == n
  }

  predicate AnyBad(live: seq<FlowState>, i: nat)
    requires forall s :: 0 <= s < |live| ==> i < |live[s].locals|
  {
    exists s :: 0 <= s < |live| && live[s].locals[i].Bad?
  }

  predicate AllSame(live: seq<FlowState>, i: nat)
    requires |live| > 0 && forall s :: 0 <= s < |live| ==> i < |live[s].locals|
  {
    forall s :: 0 <= s < |live| ==> live[s].locals[i] == live[0].locals[i]
  }

  /** Local `i` needs a phi: no path holds Bad for it, and two paths hold
      different nodes. */
  predicate NeedsPhi(live: seq<FlowState>, i: nat)
    requires |live| > 0 && forall s :: 0 <= s < |live| ==> i < |live[s].locals|
  {
    !AnyBad(live, i) && !AllSame(live, i)
  }

  /** `r` is `orig` as a value of its wasm type: a zero-extension node when
      `orig` is a one-bit result, `orig` itself otherwise. */
  predicate Expands(nodes: seq<Node>, r: Ref, orig: Ref, returnsI1: Node -> bool)
  {
    if orig.At? && orig.index < |nodes| && returnsI1(nodes[orig.index]) then
      r.At? && r.index < |nodes| && nodes[r.index] == Node(Zext, [orig])
    else r == orig
  }

  /** `r` is a test of `node`, a value of type `t`, against zero for
      equality or inequality: a comparison node whose operands are `node`
      as a value of its type and a fresh zero constant. */
  predicate ZeroCompFor(nodes: seq<Node>, r: Ref, node: Ref, t: Type, equal: bool, returnsI1: Node -> bool)
    requires IsInteger(t)
  {
    r.At? && r.index < |nodes| && |nodes[r.index].values| == 2
    && nodes[r.index].kind == ExprNode(Binary(ZeroTest(t, equal), Unreachable(unreachable), Unreachable(unreachable), t))
    && Expands(nodes, nodes[r.index].values[0], node, returnsI1)
    && var zero := nodes[r.index].values[1];
       zero.At? && zero.index < |nodes| && nodes[zero.index] == Node(ExprNode(Const(ZeroLiteral(t), t)), [])
  }

  /** Entry `r` of a merge block for the path with condition `c`: Bad when
      the path has no condition, a condition node for that entry otherwise. */
  predicate CondFor(nodes: seq<Node>, r: Ref, b: nat, s: nat, c: Ref)
  {
    if c.Bad? then r == Bad
    else r.At? && r.index < |nodes| && nodes[r.index] == Node(Cond(b, s), [c])
  }

  /** Node `b` is the block of a merge of `live`: one entry per path. */
  predicate BlockFor(nodes: seq<Node>, b: nat, live: seq<FlowState>)
  {
    b < |nodes| && nodes[b].kind == BlockNode && |nodes[b].values| == |live|
    && forall s :: 0 <= s < |live| ==> CondFor(nodes, nodes[b].values[s], b, s, live[s].condition)
  }

  /** `r` is a phi of local `i` over `live`: one value per path, on a block
      for the same paths. */
  predicate PhiFor(nodes: seq<Node>, r: Ref, live: seq<FlowState>, i: nat, returnsI1: Node -> bool)
    requires forall s :: 0 <= s < |live| ==> i < |live[s].locals|
  {
    r.At? && r.index < |nodes| && nodes[r.index].kind.Phi? && BlockFor(nodes, nodes[r.index].kind.block, live)
    && |nodes[r.index].values| == |live|
    && forall s :: 0 <= s < |live| ==> Expands(nodes, nodes[r.index].values[s], live[s].locals[i], returnsI1)
  }

  /** What a merge of two or more paths leaves in local `i`: Bad if any
      path holds Bad, the common node if all agree, a phi otherwise. */
  predicate MergedLocal(nodes: seq<Node>, live: seq<FlowState>, i: nat, out: Ref, returnsI1: Node -> bool)
    requires |live| > 0 && forall s :: 0 <= s < |live| ==> i < |live[s].locals|
  {
    if AnyBad(live, i) then out == Bad
    else if AllSame(live, i) then out == live[0].locals[i]
    else PhiFor(nodes, out, live, i, returnsI1)
  }

  /** The state a merge of `live` leaves, from the state `before`: unchanged
      with no reachable path, that path's state with one, and otherwise a
      merge per local where all phis share one block. */
  predicate Merged(nodes: seq<Node>, live: seq<FlowState>, numLocals: nat, before: seq<Ref>, after: seq<Ref>,
                   returnsI1: Node -> bool)
    requires Wide(live, numLocals)
  {
    if |live| == 0 then after == before
    else if |live| == 1 then after == live[0].locals
    else
      |after| == numLocals
      && (forall i :: 0 <= i < numLocals ==> MergedLocal(nodes, live, i, after[i], returnsI1))
      && (forall i, j :: 0 <= i < numLocals && 0 <= j < numLocals && NeedsPhi(live, i) && NeedsPhi(live, j) ==>
            nodes[after[i].index].kind == nodes[after[j].index].kind)
  }

  // Nodes appended later do not change what earlier nodes are.

  lemma ExpandsGrow(a: seq<Node>, b: seq<Node>, r: Ref, orig: Ref, returnsI1: Node -> bool)
    requires a <= b && RefOk(orig, |a|) && Expands(a, r, orig, returnsI1)
    ensures Expands(b, r, orig, returnsI1)
  {
    if orig.At? {
      assert b[orig.index] == a[orig.index];
      if r.At? && r.index < |a| {
        assert b[r.index] == a[r.index];
      }
    }
  }

  lemma ZeroCompGrow(a: seq<Node>, b: seq<Node>, r: Ref, node: Ref, t: Type, equal: bool, returnsI1: Node -> bool)
    requires a <= b && IsInteger(t) && RefOk(node, |a|) && ZeroCompFor(a, r, node, t, equal, returnsI1)
    ensures ZeroCompFor(b, r, node, t, equal, returnsI1)
  {
    assert b[r.index] == a[r.index];
    ExpandsGrow(a, b, a[r.index].values[0], node, returnsI1);
    assert b[a[r.index].values[1].index] == a[a[r.index].values[1].index];
  }

  lemma BlockForGrow(a: seq<Node>, b: seq<Node>, blk: nat, live: seq<FlowState>)
    requires a <= b && BlockFor(a, blk, live)
    ensures BlockFor(b, blk, live)
  {
    assert b[blk] == a[blk];
    forall s | 0 <= s < |live|
      ensures CondFor(b, b[blk].values[s], blk, s, live[s].condition)
    {
      var r := a[blk].values[s];
      if r.At? {
        assert b[r.index] == a[r.index];
      }
    }
  }

  lemma PhiForGrow(a: seq<Node>, b: seq<Node>, r: Ref, live: seq<FlowState>, i: nat, returnsI1: Node -> bool)
    requires a <= b && forall s :: 0 <= s < |live| ==> i < |live[s].locals| && RefOk(live[s].locals[i], |a|)
    requires PhiFor(a, r, live, i, returnsI1)
    ensures PhiFor(b, r, live, i, returnsI1)
  {
    assert b[r.index] == a[r.index];
    BlockForGrow(a, b, a[r.index].kind.block, live);
    forall s | 0 <= s < |live|
      ensures Expands(b, b[r.index].values[s], live[s].locals[i], returnsI1)
    {
      ExpandsGrow(a, b, a[r.index].values[s], live[s].locals[i], returnsI1);
    }
  }

  lemma MergedLocalGrow(a: seq<Node>, b: seq<Node>, live: seq<FlowState>, i: nat, out: Ref, returnsI1: Node -> bool)
    requires a <= b && |live| > 0
    requires forall s :: 0 <= s < |live| ==> i < |live[s].locals| && RefOk(live[s].locals[i], |a|)
    requires MergedLocal(a, live, i, out, returnsI1)
    ensures MergedLocal(b, live, i, out, returnsI1)
    ensures NeedsPhi(live, i) ==> out.index < |a| && b[out.index] == a[out.index]
  {
    if NeedsPhi(live, i) {
      PhiForGrow(a, b, out, live, i, returnsI1);
    }
  }

  /** Adding an operand to a node that is not a zero extension, past the
      original, keeps an extension as it was. */
  lemma ExpandsUpdate(a: seq<Node>, p: nat, nd: Node, r: Ref, orig: Ref, returnsI1: Node -> bool)
    requires p < |a| && a[p].kind != Zext && RefOk(orig, p) && Expands(a, r, orig, returnsI1)
    ensures Expands(a[p := nd], r, orig, returnsI1)
  {
  }

  /** One more operand on the phi at `p`: the operands so far still expand
      their paths' values once `v`, the expansion of path `s`'s value, is
      appended. */
  lemma PhiStep(before: seq<Node>, mid: seq<Node>, p: nat, v: Ref, live: seq<FlowState>, i: nat, s: nat,
                returnsI1: Node -> bool)
    requires p < |before| && before <= mid && before[p].kind.Phi? && |before[p].values| == s < |live|
    requires forall t :: 0 <= t < |live| ==> i < |live[t].locals| && RefOk(live[t].locals[i], p)
    requires forall t :: 0 <= t < s ==> Expands(before, before[p].values[t], live[t].locals[i], returnsI1)
    requires Expands(mid, v, live[s].locals[i], returnsI1)
    ensures var after := mid[p := Node(mid[p].kind, mid[p].values + [v])];
            forall t :: 0 <= t < s + 1 ==> Expands(after, after[p].values[t], live[t].locals[i], returnsI1)
  {
    var after := mid[p := Node(mid[p].kind, mid[p].values + [v])];
    assert mid[p] == before[p];
    forall t | 0 <= t < s + 1
      ensures Expands(after, after[p].values[t], live[t].locals[i], returnsI1)
    {
      if t < s {
        ExpandsGrow(before, mid, before[p].values[t], live[t].locals[i], returnsI1);
      }
      ExpandsUpdate(mid, p, after[p], after[p].values[t], live[t].locals[i], returnsI1);
    }
  }

  // ---------------------------------------------------------------------------
  // Loops

  /** `rs` with every `v` replaced by `p`. */
  function Substitute(rs: seq<Ref>, v: Ref, p: Ref): (r: seq<Ref>)
    ensures |r| == |rs|
  {
    if |rs| == 0 then []
    else Substitute(rs[..|rs| - 1], v, p) + [if rs[|rs| - 1] == v then p else rs[|rs| - 1]]
  }

  /** After the substitution `v` is gone and everything else is in place. */
  lemma {:induction false} SubstituteRemoves(rs: seq<Ref>, v: Ref, p: Ref)
    ensures forall k :: 0 <= k < |rs| ==> Substitute(rs, v, p)[k] == (if rs[k] == v then p else rs[k])
    ensures v != p ==> v !in Substitute(rs, v, p)
    decreases |rs|
  {
    if |rs| > 0 {
      SubstituteRemoves(rs[..|rs| - 1], v, p);
    }
  }

  /** Substituting twice is substituting once. */
  lemma SubstituteIdempotent(rs: seq<Ref>, v: Ref, p: Ref)
    ensures Substitute(Substitute(rs, v, p), v, p) == Substitute(rs, v, p)
  {
    SubstituteRemoves(rs, v, p);
    SubstituteRemoves(Substitute(rs, v, p), v, p);
  }

  /** Substituting a reference that exists keeps every reference valid. */
  lemma SubstituteOk(rs: seq<Ref>, v: Ref, p: Ref, n: nat)
    requires AllOk(rs, n) && RefOk(p, n)
    ensures AllOk(Substitute(rs, v, p), n)
  {
    SubstituteRemoves(rs, v, p);
  }

  /** A reference that is absent, and is not the replacement, stays absent. */
  lemma SubstituteKeepsOut(rs: seq<Ref>, v: Ref, p: Ref, x: Ref)
    requires x !in rs && x != p
    ensures x !in Substitute(rs, v, p)
  {
    SubstituteRemoves(rs, v, p);
  }

  /** Local `i` of a named loop needs a phi: some reachable path into the
      loop holds for it neither the loop's Var nor the value before the
      loop. Paths from unreachable code carry no state and are skipped. */
  predicate LoopNeedsPhi(breaks: seq<seq<Ref>>, i: nat, v: Ref, proper: Ref)
  {
    exists b :: 0 <= b < |breaks| && i < |breaks[b]| && breaks[b][i] != v && breaks[b][i] != proper
  }

  /** The references `rs` after a named loop has undone the Var of every
      local `0 .. i` that needed no phi, in order of the locals: each such
      Var becomes the value the local held before the loop. */
  function Resolve(rs: seq<Ref>, vars: seq<Ref>, previous: seq<Ref>, breaks: seq<seq<Ref>>, i: nat): (r: seq<Ref>)
    requires i <= |vars| && i <= |previous|
    ensures |r| == |rs|
  {
    if i == 0 then rs
    else
      var before := Resolve(rs, vars, previous, breaks, i - 1);
      if LoopNeedsPhi(breaks, i - 1, vars[i - 1], previous[i - 1]) then before
      else Substitute(before, vars[i - 1], previous[i - 1])
  }

  /** The nodes `nodes` after a named loop whose nodes start at `first` has
      undone the Vars of the locals `0 .. n`: earlier nodes are untouched. */
  function ResolvedNodes(nodes: seq<Node>, first: nat, vars: seq<Ref>, previous: seq<Ref>, breaks: seq<seq<Ref>>,
                         n: nat): seq<Node>
    requires n <= |vars| && n <= |previous|
  {
    seq(|nodes|, j requires 0 <= j < |nodes| =>
                   if j < first then nodes[j] else Node(nodes[j].kind, Resolve(nodes[j].values, vars, previous, breaks, n)))
  }

  /** The Var of a local that needed no phi is gone once the loop is done,
      provided no value from before the loop is one of the loop's Vars. */
  lemma {:induction false} ResolveRemoves(rs: seq<Ref>, vars: seq<Ref>, previous: seq<Ref>, breaks: seq<seq<Ref>>,
                                          i: nat, m: nat)
    requires i < m <= |vars| && m <= |previous|
    requires !LoopNeedsPhi(breaks, i, vars[i], previous[i])
    requires forall j :: 0 <= j < |previous| ==> previous[j] != vars[i]
    ensures vars[i] !in Resolve(rs, vars, previous, breaks, m)
    decreases m
  {
    if m == i + 1 {
      SubstituteRemoves(Resolve(rs, vars, previous, breaks, i), vars[i], previous[i]);
    } else {
      ResolveRemoves(rs, vars, previous, breaks, i, m - 1);
      if !LoopNeedsPhi(breaks, m - 1, vars[m - 1], previous[m - 1]) {
        SubstituteKeepsOut(Resolve(rs, vars, previous, breaks, m - 1), vars[m - 1], previous[m - 1], vars[i]);
      }
    }
  }

  /** Only the loop's Vars are replaced: an entry that is none of them
      stays as it was. */
  lemma {:induction false} ResolveKeeps(rs: seq<Ref>, vars: seq<Ref>, previous: seq<Ref>, breaks: seq<seq<Ref>>,
                                        m: nat, k: nat)
    requires m <= |vars| && m <= |previous| && k < |rs| && rs[k] !in vars
    ensures Resolve(rs, vars, previous, breaks, m)[k] == rs[k]
    decreases m
  {
    if m > 0 {
      ResolveKeeps(rs, vars, previous, breaks, m - 1, k);
      SubstituteRemoves(Resolve(rs, vars, previous, breaks, m - 1), vars[m - 1], previous[m - 1]);
    }
  }

  /** The phi decisions of a named loop over locals `0 .. numLocals`, as the
      loop is written: it writes a Var into every entry of the state before
      the loop, and reads entry `i` of every path into the loop. None when
      one of those entries does not exist. */
  function LoopPhisAsWritten(previous: seq<Ref>, vars: seq<Ref>, breaks: seq<seq<Ref>>, numLocals: nat): (r: Option<seq<bool>>)
    requires |vars| == numLocals
    ensures r.Some? ==> |r.value| == numLocals
  {
    if |previous| < numLocals || exists b :: 0 <= b < |breaks| && |breaks[b]| < numLocals then None
    else Some(seq(numLocals, i requires 0 <= i < numLocals =>
      exists b :: 0 <= b < |breaks| && breaks[b][i] != vars[i] && breaks[b][i] != previous[i]))
  }

  /** Where every state involved is reachable the correction changes
      nothing. */
  lemma LoopPhisAgree(previous: seq<Ref>, vars: seq<Ref>, breaks: seq<seq<Ref>>, numLocals: nat)
    requires |vars| == numLocals && |previous| == numLocals
    requires forall b :: 0 <= b < |breaks| ==> |breaks[b]| == numLocals
    ensures LoopPhisAsWritten(previous, vars, breaks, numLocals).Some?
    ensures forall i :: 0 <= i < numLocals ==>
      LoopPhisAsWritten(previous, vars, breaks, numLocals).value[i] == LoopNeedsPhi(breaks, i, vars[i], previous[i])
  {
  }

  /** `(block (unreachable) (loop $l (nop)))` with one local: the loop is
      entered on an unreachable path, whose state is empty. */
  lemma LoopEnteredUnreachable()
    ensures LoopPhisAsWritten([], [At(0)], [], 1) == None
  {
  }

  /** `(loop $l (block (unreachable) (br $l)))` with one local: the branch
      back to the loop is recorded with an empty state. */
  lemma LoopBranchFromUnreachable()
    ensures LoopPhisAsWritten([At(0)], [At(1)], [[]], 1) == None
  {
    var breaks: seq<seq<Ref>> := [[]];
    assert |breaks[0]| < 1;
  }

  /** A named loop over one local that is not tracked and is not a
      parameter: its Var is Bad and its value before the loop a zero
      constant, so with no path needing a phi every Bad the loop leaves in
      the state, here that of a second untracked local, becomes that
      constant. */
  lemma LoopUndoesBad()
    ensures Resolve([Bad, Bad], [Bad, Bad], [At(0), At(1)], [], 1) == [At(0), At(0)]
  {
    assert !LoopNeedsPhi([], 0, Bad, At(0));
    SubstituteRemoves([Bad, Bad], Bad, At(0));
  }

  /** The list a map holds for `k`, empty when it holds none: what indexing
      a map of vectors finds, creating the entry if need be. */
  function Lookup<K, V>(m: map<K, seq<V>>, k: K): seq<V>
  {
    if k in m then m[k] else []
  }

  /** The branch states after `state` is recorded once for each of
      `targets`. */
  function RecordedAll(bs: map<Label, seq<seq<Ref>>>, targets: set<Label>, state: seq<Ref>): map<Label, seq<seq<Ref>>>
  {
    map t | t in bs.Keys + targets :: if t in targets then Lookup(bs, t) + [state] else bs[t]
  }

  /** Recording for one more target. */
  lemma RecordedAllStep(bs: map<Label, seq<seq<Ref>>>, targets: set<Label>, t: Label, state: seq<Ref>)
    requires t !in targets
    ensures RecordedAll(bs, targets + {t}, state)
            == RecordedAll(bs, targets, state)[t := Lookup(RecordedAll(bs, targets, state), t) + [state]]
  {
  }

  /** The paths into the end of a block: each recorded state, with no
      condition. */
  function BlockStates(localses: seq<seq<Ref>>): seq<FlowState>
  {
    seq(|localses|, k requires 0 <= k < |localses| => FlowState(localses[k], Bad))
  }

  // ---------------------------------------------------------------------------
  // Comparisons

  predicate IsComparison(op: BinaryOp)
  {
    op in {EqInt32, NeInt32, LtSInt32, LtUInt32, LeSInt32, LeUInt32, GtSInt32, GtUInt32, GeSInt32, GeUInt32,
           EqInt64, NeInt64, LtSInt64, LtUInt64, LeSInt64, LeUInt64, GtSInt64, GtUInt64, GeSInt64, GeUInt64}
  }

  /** The comparisons that have no counterpart in the target of the IR and
      are rewritten. */
  predicate IsGreater(op: BinaryOp)
  {
    op in {GtSInt32, GtSInt64, GeSInt32, GeSInt64, GtUInt32, GtUInt64, GeUInt32, GeUInt64}
  }

  predicate Is64(op: BinaryOp)
  {
    op in {EqInt64, NeInt64, LtSInt64, LtUInt64, LeSInt64, LeUInt64, GtSInt64, GtUInt64, GeSInt64, GeUInt64}
  }

  /** The unsigned reading of a two's complement value of the operator's
      width. */
  function Unsigned(op: BinaryOp, a: int): int
  {
    if Is64(op) then a % 0x1_0000_0000_0000_0000 else a % 0x1_0000_0000
  }

  /** The result of an integer comparison on operands given as signed
      values. */
  predicate Compare(op: BinaryOp, a: int, b: int)
    requires IsComparison(op)
  {
    match op
    case EqInt32 | EqInt64 => a == b
    case NeInt32 | NeInt64 => a != b
    case LtSInt32 | LtSInt64 => a < b
    case LeSInt32 | LeSInt64 => a <= b
    case GtSInt32 | GtSInt64 => a > b
    case GeSInt32 | GeSInt64 => a >= b
    case LtUInt32 | LtUInt64 => Unsigned(op, a) < Unsigned(op, b)
    case LeUInt32 | LeUInt64 => Unsigned(op, a) <= Unsigned(op, b)
    case GtUInt32 | GtUInt64 => Unsigned(op, a) > Unsigned(op, b)
    case GeUInt32 | GeUInt64 => Unsigned(op, a) >= Unsigned(op, b)
  }

  /** The operator the rewrite uses, as written: greater-than becomes
      less-or-equal and greater-or-equal becomes less-than. */
  function FlipAsWritten(op: BinaryOp): (r: BinaryOp)
    requires IsGreater(op)
    ensures IsComparison(r) && !IsGreater(r) && Is64(r) == Is64(op)
  {
    match op
    case GtSInt32 => LeSInt32
    case GtSInt64 => LeSInt64
    case GeSInt32 => LtSInt32
    case GeSInt64 => LtSInt64
    case GtUInt32 => LeUInt32
    case GtUInt64 => LeUInt64
    case GeUInt32 => LtUInt32
    case GeUInt64 => LtUInt64
  }

  /** With the operands swapped, the operator as written is wrong whenever
      they are equal: `a > a` is false and `a <= a` true, and the other way
      round for greater-or-equal. */
  lemma FlipAsWrittenDiffers(op: BinaryOp, a: int)
    requires IsGreater(op)
    ensures Compare(FlipAsWritten(op), a, a) != Compare(op, a, a)
  {
  }

  /** The operator the rewrite needs: the mirror image, less-than for
      greater-than and less-or-equal for greater-or-equal. */
  function Flip(op: BinaryOp): (r: BinaryOp)
    requires IsGreater(op)
    ensures IsComparison(r) && !IsGreater(r) && Is64(r) == Is64(op)
  {
    match op
    case GtSInt32 => LtSInt32
    case GtSInt64 => LtSInt64
    case GeSInt32 => LeSInt32
    case GeSInt64 => LeSInt64
    case GtUInt32 => LtUInt32
    case GtUInt64 => LtUInt64
    case GeUInt32 => LeUInt32
    case GeUInt64 => LeUInt64
  }

  /** The mirrored comparison on swapped operands computes the original. */
  lemma FlipMirrors(op: BinaryOp, a: int, b: int)
    requires IsGreater(op)
    ensures Compare(Flip(op), b, a) == Compare(op, a, b)
  {
  }

  /** The binary operators a node is built for as they are. */
  predicate IsSupportedBinary(op: BinaryOp)
  {
    op in {AddInt32, AddInt64, SubInt32, SubInt64, MulInt32, MulInt64, DivSInt32, DivSInt64, DivUInt32, DivUInt64,
           RemSInt32, RemSInt64, RemUInt32, RemUInt64, AndInt32, AndInt64, OrInt32, OrInt64, XorInt32, XorInt64,
           ShlInt32, ShlInt64, ShrUInt32, ShrUInt64, ShrSInt32, ShrSInt64, RotLInt32, RotLInt64, RotRInt32, RotRInt64,
           EqInt32, EqInt64, NeInt32, NeInt64, LtSInt32, LtSInt64, LtUInt32, LtUInt64, LeSInt32, LeSInt64,
           LeUInt32, LeUInt64}
  }

  /** An operation built as it is is never rewritten. */
  lemma SupportedNotGreater(op: BinaryOp)
    requires IsSupportedBinary(op)
    ensures !IsGreater(op)
  {
  }

  /** Rewriting a greater-than comparison gives one that is built as it is. */
  lemma FlipSupported(op: BinaryOp)
    requires IsGreater(op)
    ensures IsSupportedBinary(Flip(op)) && !IsSupportedBinary(op)
  {
  }

  /** The comparison a zero test builds: equality or inequality at the
      operand's integer type. */
  function ZeroTest(t: Type, equal: bool): (r: BinaryOp)
    requires IsInteger(t)
    ensures IsComparison(r) && Is64(r) == (t == i64)
  {
    if t == i32 then (if equal then EqInt32 else NeInt32)
    else (if equal then EqInt64 else NeInt64)
  }

  // ---------------------------------------------------------------------------
  // Input the builder accepts

  /** Whether visiting `e` from a reachable path leaves the path reachable:
      false for the nodes that end a path (an unconditional branch, a
      switch, a return, an unreachable) and for control flow, which flat IR
      never uses as an operand. */
  predicate StaysReachable(e: Expr)
    decreases e
  {
    match e
    case Break(_, _, c, _) => c.Some?
    case Switch(_, _, _, _, _, _) => false
    case Return(_, _) => false
    case Unreachable(_) => false
    case Block(_, _, _) => false
    case If(_, _, _, _) => false
    case Loop(_, _, _) => false
    case SetLocal(_, v, _, _) => StaysReachable(v)
    case Unary(_, v, _) => StaysReachable(v)
    case Binary(_, l, r, _) => StaysReachable(l) && StaysReachable(r)
    case Select(t, f, c, _) => StaysReachable(t) && StaysReachable(f) && StaysReachable(c)
    case _ => true
  }

  lemma StaysReachableBinary(op: BinaryOp, left: Expr, right: Expr, ty: Type)
    ensures StaysReachable(Binary(op, left, right, ty)) == (StaysReachable(left) && StaysReachable(right))
  {
  }

  lemma StaysReachableUnary(op: UnaryOp, value: Expr, ty: Type)
    ensures StaysReachable(Unary(op, value, ty)) == StaysReachable(value)
  {
  }

  lemma StaysReachableSelect(t: Expr, f: Expr, c: Expr, ty: Type)
    ensures StaysReachable(Select(t, f, c, ty)) == (StaysReachable(t) && StaysReachable(f) && StaysReachable(c))
  {
  }

  lemma StaysReachableSetLocal(index: nat, value: Expr, isTee: bool, ty: Type)
    ensures StaysReachable(SetLocal(index, value, isTee, ty)) == StaysReachable(value)
  {
  }

  /** Control flow, and the nodes that end a path, are never operands. */
  lemma EndsOrControl(e: Expr)
    requires e.Block? || e.If? || e.Loop? || e.Switch? || e.Return? || e.Unreachable? || (e.Break? && e.optCondition.None?)
    ensures !StaysReachable(e)
  {
  }

  /** Flat IR over `n` locals: every local index exists, and the value of a
      set is an operand that leaves its path reachable. */
  predicate WellFormed(e: Expr, n: nat)
    decreases e
  {
    (e.GetLocal? ==> e.index < n)
    && (e.SetLocal? ==> e.index < n && StaysReachable(e.value))
    && forall k :: 0 <= k < |Children(e)| ==> WellFormed(Children(e)[k], n)
  }

  /** The distinct labels among `targets`, each once. */
  function Distinct(targets: seq<Label>): (r: set<Label>)
    ensures forall t :: t in r <==> t in targets
  {
    set k | 0 <= k < |targets| :: targets[k]
  }
}
