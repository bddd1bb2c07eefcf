/**
 * The hierarchical engine as pure functions over an arena of state nodes.
 *
 * Every `StateBase` object is an entry of `ns: seq<Node>`, named by its index;
 * `parent`, `states`, `initialState`, `currentState` and transition targets
 * are indices. `Update` and `UpdateDown` give the result of one call of the
 * source's recursive methods together with the arena after it; the class in
 * HierarchicalStateMachine.dfy runs the same algorithm on mutable fields and
 * is proved equal to these functions.
 */
module Hierarchy {
  import opened Wrappers
  import opened Actions
  import opened Conditions

  type NodeId = nat

  /** A transition of the hierarchical engine: target, action handle and guard. */
  datatype StateTransition = StateTransition(targetState: NodeId, transitionActions: ActionHandle, condition: Condition)

  /** The guard of a transition; `IsTriggered()` is `Test(Guard(t), env)`. */
  function Guard(t: StateTransition): Condition
  {
    t.condition
  }

  /** A state node: a leaf (`EndState`) or a composite (`StateMachineState`). */
  datatype Node =
    | EndState(stateName: string, level: int, parent: Option<NodeId>,
               entryActions: ActionHandle, regActions: ActionHandle, exitActions: ActionHandle,
               transitions: seq<StateTransition>)
    | StateMachineState(stateName: string, level: int, parent: Option<NodeId>,
               entryActions: ActionHandle, regActions: ActionHandle, exitActions: ActionHandle,
               transitions: seq<StateTransition>,
               states: seq<NodeId>, initialState: Option<NodeId>, currentState: Option<NodeId>)

  /** What one `Update` call hands to its caller. */
  datatype UpdateResult = UpdateResult(actions: seq<ActionHandle>, transition: Option<StateTransition>, level: int)

  /** An `Update` result with the arena after the call. */
  datatype Outcome = Outcome(result: UpdateResult, nodes: seq<Node>)

  /** An `UpdateDown` action list with the arena after the call. */
  datatype Descent = Descent(actions: seq<ActionHandle>, nodes: seq<Node>)

  // ---- well-formed arenas ---------------------------------------------------

  /** Every reference held by node `i` names a node of the arena; parents are composites. */
  ghost predicate RefsInRange(ns: seq<Node>, i: nat)
    requires i < |ns|
  {
    var x := ns[i];
    && (x.parent.Some? ==> x.parent.value < |ns| && ns[x.parent.value].StateMachineState?)
    && (forall t :: t in x.transitions ==> t.targetState < |ns|)
    && (x.StateMachineState? ==>
          && (forall s :: s in x.states ==> s < |ns|)
          && (x.initialState.Some? ==> x.initialState.value < |ns|)
          && (x.currentState.Some? ==> x.currentState.value < |ns|))
  }

  /** The arena invariant that construction keeps. */
  ghost predicate WellFormed(ns: seq<Node>)
  {
    forall i :: 0 <= i < |ns| ==> RefsInRange(ns, i)
  }

  /**
   * Depth bookkeeping of node `i`: a root is at level 0, a node one below its
   * parent, and a composite has an initial child, which like its current
   * child is one level below it.
   */
  ghost predicate Levelled(ns: seq<Node>, i: nat)
    requires i < |ns| && RefsInRange(ns, i)
  {
    var x := ns[i];
    && x.level >= 0
    && (x.parent.None? ==> x.level == 0)
    && (x.parent.Some? ==> x.level == ns[x.parent.value].level + 1)
    && (x.StateMachineState? ==>
          && x.initialState.Some?
          && ns[x.initialState.value].level == x.level + 1
          && (x.currentState.Some? ==> ns[x.currentState.value].level == x.level + 1))
  }

  /** A tree that can be ticked: well formed and levelled everywhere. */
  ghost predicate Consistent(ns: seq<Node>)
  {
    && WellFormed(ns)
    && forall i :: 0 <= i < |ns| ==> Levelled(ns, i)
  }

  /** A node with its current-child pointer forgotten. */
  function Shape(x: Node): Node
  {
    if x.StateMachineState? then x.(currentState := None) else x
  }

  /** `ns'` differs from `ns` at most in current-child pointers. */
  ghost predicate SameShape(ns: seq<Node>, ns': seq<Node>)
  {
    && |ns'| == |ns|
    && forall i :: 0 <= i < |ns| ==> Shape(ns'[i]) == Shape(ns[i])
  }

  lemma SameShapeTransitive(a: seq<Node>, b: seq<Node>, c: seq<Node>)
    requires SameShape(a, b) && SameShape(b, c)
    ensures SameShape(a, c)
  {
  }

  /** The arena with composite `n`'s current child set to `c`. */
  function SetCurrent(ns: seq<Node>, n: NodeId, c: Option<NodeId>): (ns': seq<Node>)
    requires n < |ns| && ns[n].StateMachineState?
  {
    ns[n := ns[n].(currentState := c)]
  }

  /** Entering a child one level down, or clearing the pointer, keeps the tree consistent. */
  lemma SetCurrentKeepsConsistent(ns: seq<Node>, n: NodeId, c: Option<NodeId>)
    requires Consistent(ns) && n < |ns| && ns[n].StateMachineState?
    requires c.Some? ==> c.value < |ns| && ns[c.value].level == ns[n].level + 1
    ensures Consistent(SetCurrent(ns, n, c)) && SameShape(ns, SetCurrent(ns, n, c))
  {
    var ns' := SetCurrent(ns, n, c);
    forall i | 0 <= i < |ns'|
      ensures RefsInRange(ns', i) && Levelled(ns', i)
    {
      assert RefsInRange(ns, i) && Levelled(ns, i);
    }
  }

  /** An upper bound of the levels in the arena: the recursion measure of `Update`. */
  function MaxLevel(ns: seq<Node>): (m: int)
    ensures forall i :: 0 <= i < |ns| ==> ns[i].level <= m
  {
    if |ns| == 0 then 0
    else
      var m := MaxLevel(ns[..|ns| - 1]);
      assert forall i :: 0 <= i < |ns| - 1 ==> ns[..|ns| - 1][i] == ns[i];
      if ns[|ns| - 1].level > m then ns[|ns| - 1].level else m
  }

  // ---- transitions ----------------------------------------------------------

  /**
   * `GetLevel(start)`: how many levels the target lies above `start`; zero
   * for the same depth, positive for a shallower and negative for a deeper
   * target.
   */
  function GetLevel(ns: seq<Node>, t: StateTransition, start: NodeId): (d: int)
    requires t.targetState < |ns| && start < |ns|
    ensures ns[t.targetState].level + d == ns[start].level
    ensures d == 0 <==> ns[start].level == ns[t.targetState].level
    ensures d > 0 <==> ns[t.targetState].level < ns[start].level
    ensures d < 0 <==> ns[t.targetState].level > ns[start].level
  {
    ns[start].level - ns[t.targetState].level
  }

  /** The first transition of node `c` whose condition holds, if any. */
  function Trigger(ns: seq<Node>, c: NodeId, env: Env): (t: Option<StateTransition>)
    requires c < |ns| && RefsInRange(ns, c)
    ensures t.Some? ==> t.value in ns[c].transitions && t.value.targetState < |ns|
  {
    var i := FirstIndex(ns[c].transitions, Guard, env);
    if i < |ns[c].transitions| then Some(ns[c].transitions[i]) else None
  }

  // ---- UpdateDown -----------------------------------------------------------

  /**
   * `p.UpdateDown(x, k)` where `p` is `x`'s parent: with `k > 0` first let the
   * parent of `p` do `UpdateDown(p, k - 1)`; then exit `p`'s current child if
   * it has one, make `x` current and end with `x`'s entry action.
   */
  function UpdateDown(ns: seq<Node>, p: NodeId, x: NodeId, k: nat): (d: Descent)
    requires Consistent(ns) && p < |ns| && x < |ns|
    requires ns[x].parent == Some(p) && k <= ns[p].level
    ensures Consistent(d.nodes) && SameShape(ns, d.nodes)
    decreases k
  {
    assert RefsInRange(ns, x) && Levelled(ns, x) && Levelled(ns, p);
    var up := if k > 0 then UpdateDown(ns, ns[p].parent.value, p, k - 1) else Descent([], ns);
    assert Shape(up.nodes[p]) == Shape(ns[p]) && Shape(up.nodes[x]) == Shape(ns[x]);
    assert RefsInRange(up.nodes, p);
    var cur := up.nodes[p].currentState;
    var exits := if cur.Some? then [up.nodes[cur.value].exitActions] else [];
    SetCurrentKeepsConsistent(up.nodes, p, Some(x));
    var ns' := SetCurrent(up.nodes, p, Some(x));
    SameShapeTransitive(ns, up.nodes, ns');
    Descent(up.actions + exits + [ns'[x].entryActions], ns')
  }

  // ---- Update ---------------------------------------------------------------

  /**
   * What a pending result promises its caller: the transition's target lies
   * `level` levels above the node that returned it, and nothing shallower
   * than that node has changed.
   */
  ghost predicate Pending(ns: seq<Node>, n: NodeId, o: Outcome)
    requires n < |ns| && o.result.transition.Some?
  {
    var t := o.result.transition.value;
    && t.targetState < |ns|
    && o.result.level >= 0
    && ns[t.targetState].level == ns[n].level - o.result.level
    && |o.nodes| == |ns|
    && forall i :: 0 <= i < |ns| && ns[i].level < ns[n].level ==> o.nodes[i] == ns[i]
  }

  /**
   * What `Resolve` needs of a transition found at or below the current child
   * of `n`: its target lies `level - 1` levels above `n`, and `n` still has
   * its current child.
   */
  ghost predicate Detected(ns: seq<Node>, n: NodeId, o: Outcome)
    requires n < |ns| && o.result.transition.Some? && |o.nodes| == |ns|
  {
    var t := o.result.transition.value;
    && t.targetState < |ns|
    && o.nodes[n].StateMachineState?
    && o.nodes[n].currentState.Some?
    && ns[t.targetState].level == ns[n].level + 1 - o.result.level
  }

  /**
   * The second half of the composite `Update`: act on the transition the
   * current child's check or its own `Update` produced.
   */
  function Resolve(ns: seq<Node>, n: NodeId, o: Outcome): (r: Outcome)
    requires Consistent(ns) && n < |ns| && ns[n].StateMachineState?
    requires Consistent(o.nodes) && SameShape(ns, o.nodes)
    requires o.result.transition.Some? ==> Detected(ns, n, o)
    ensures Consistent(r.nodes) && SameShape(ns, r.nodes)
    ensures r.result.transition.Some? ==>
      && o.result.transition == r.result.transition
      && o.result.level > 0
      && r.result.level == o.result.level - 1
      && r.nodes == SetCurrent(o.nodes, n, None)
  {
    var res := o.result;
    var ns1 := o.nodes;
    assert Shape(ns1[n]) == Shape(ns[n]);
    if res.transition.None? then
      Outcome(res.(actions := res.actions + [ns1[n].regActions]), ns1)
    else
      var t := res.transition.value;
      assert Shape(ns1[t.targetState]) == Shape(ns[t.targetState]);
      assert RefsInRange(ns1, n) && Levelled(ns, n);
      var cur := ns1[n].currentState.value;
      if res.level == 0 then
        SetCurrentKeepsConsistent(ns1, n, Some(t.targetState));
        var ns2 := SetCurrent(ns1, n, Some(t.targetState));
        SameShapeTransitive(ns, ns1, ns2);
        var acts := res.actions + [ns1[cur].exitActions, t.transitionActions, ns1[t.targetState].entryActions];
        Outcome(UpdateResult(acts + [ns2[n].regActions], None, res.level), ns2)
      else if res.level > 0 then
        SetCurrentKeepsConsistent(ns1, n, None);
        SameShapeTransitive(ns, ns1, SetCurrent(ns1, n, None));
        Outcome(UpdateResult(res.actions + [ns1[cur].exitActions], res.transition, res.level - 1),
                SetCurrent(ns1, n, None))
      else
        assert RefsInRange(ns1, t.targetState) && Levelled(ns1, t.targetState);
        var p := ns1[t.targetState].parent.value;
        assert Levelled(ns1, p);
        var down := UpdateDown(ns1, p, t.targetState, -res.level);
        SameShapeTransitive(ns, ns1, down.nodes);
        Outcome(UpdateResult(res.actions + [t.transitionActions] + down.actions, None, res.level), down.nodes)
  }

  /** The transition check of composite `n` on its current child `c`, before any delegation. */
  function Detect(ns: seq<Node>, n: NodeId, c: NodeId, t: StateTransition): (o: Outcome)
    requires t.targetState < |ns| && c < |ns|
    ensures o.nodes == ns && o.result.actions == [] && o.result.transition == Some(t)
    ensures ns[t.targetState].level + o.result.level == ns[c].level
  {
    Outcome(UpdateResult([], Some(t), GetLevel(ns, t, c)), ns)
  }

  /**
   * One `Update()` call on node `n`. A leaf returns its regular action. A
   * composite without a current child enters its initial child and stops
   * there. Otherwise the current child's own transitions are checked first;
   * only when none fires is the child updated, and the result is resolved.
   */
  function Update(ns: seq<Node>, n: NodeId, env: Env): (o: Outcome)
    requires Consistent(ns) && n < |ns|
    ensures Consistent(o.nodes) && SameShape(ns, o.nodes)
    ensures o.result.transition.Some? ==> Pending(ns, n, o)
    decreases MaxLevel(ns) - ns[n].level
  {
    assert RefsInRange(ns, n) && Levelled(ns, n);
    match ns[n]
    case EndState(_, _, _, _, reg, _, _) =>
      Outcome(UpdateResult([reg], None, 0), ns)
    case StateMachineState(_, _, _, _, _, _, _, _, initial, current) =>
      if current.None? then
        SetCurrentKeepsConsistent(ns, n, initial);
        Outcome(UpdateResult([ns[initial.value].entryActions], None, 0), SetCurrent(ns, n, initial))
      else
        var c := current.value;
        assert RefsInRange(ns, c);
        var trigger := Trigger(ns, c, env);
        var o := if trigger.Some? then Detect(ns, n, c, trigger.value) else Update(ns, c, env);
        assert o.result.transition.Some? ==> o.nodes[n] == ns[n];
        Resolve(ns, n, o)
  }

  // ---- GetStates ------------------------------------------------------------

  /**
   * `GetStates()`: the node and, through current-child pointers, every active
   * node below it, outermost first.
   */
  function ActiveChain(ns: seq<Node>, n: NodeId): (chain: seq<NodeId>)
    requires Consistent(ns) && n < |ns|
    ensures |chain| >= 1 && chain[0] == n
    ensures forall i :: 0 <= i < |chain| ==> chain[i] < |ns|
    ensures forall i {:trigger ns[chain[i]]} :: 0 <= i < |chain| ==> ns[chain[i]].level == ns[n].level + i
    ensures forall i {:trigger ns[chain[i]]} :: 0 <= i < |chain| - 1 ==>
      ns[chain[i]].StateMachineState? && ns[chain[i]].currentState == Some(chain[i + 1])
    ensures ns[chain[|chain| - 1]].EndState? || ns[chain[|chain| - 1]].currentState.None?
    decreases MaxLevel(ns) - ns[n].level
  {
    assert RefsInRange(ns, n) && Levelled(ns, n);
    if ns[n].StateMachineState? && ns[n].currentState.Some? then
      var sub := ActiveChain(ns, ns[n].currentState.value);
      var chain := [n] + sub;
      assert forall i :: 1 <= i < |chain| ==> chain[i] == sub[i - 1];
      chain
    else
      [n]
  }
}
