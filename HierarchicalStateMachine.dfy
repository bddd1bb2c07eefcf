/**
 * The hierarchical state machine as the source runs it: state objects whose
 * fields are updated in place, a driver holding the root, and the recursive
 * `Update` / `UpdateDown` methods. Every state object lives in the arena
 * `nodes`; a node id stands for an object reference.
 */
module HierarchicalEngine {
  import opened Wrappers
  import opened Actions
  import opened Conditions
  import opened Hierarchy

  /**
   * Adding `s` under composite `n` keeps every reference in range: the only
   * new references are `n` (as `s`'s parent) and `s` (as `n`'s child and
   * possibly its initial state), and no node changes kind.
   */
  lemma AddStateKeepsWellFormed(ns0: seq<Node>, ns: seq<Node>, n: NodeId, s: NodeId)
    requires WellFormed(ns0) && n < |ns0| && ns0[n].StateMachineState? && s < |ns0| && |ns| == |ns0|
    requires forall i :: 0 <= i < |ns| && i != n && i != s ==> ns[i] == ns0[i]
    requires n != s ==>
      && ns[n] == ns0[n].(states := ns0[n].states + [s],
                          initialState := if ns0[n].states == [] then Some(s) else ns0[n].initialState)
      && ns[s] == ns0[s].(parent := Some(n), level := ns0[n].level + 1)
    requires n == s ==>
      ns[n] == ns0[n].(states := ns0[n].states + [n], parent := Some(n), level := ns0[n].level + 1,
                       initialState := if ns0[n].states == [] then Some(n) else ns0[n].initialState)
    ensures WellFormed(ns)
  {
    assert forall i :: 0 <= i < |ns| ==> ns[i].StateMachineState? == ns0[i].StateMachineState?;
    forall j | 0 <= j < |ns|
      ensures RefsInRange(ns, j)
    {
      assert RefsInRange(ns0, j);
    }
  }

  class HierarchicalStateMachine {
    /** Every state object, leaves and composites; ids index this sequence. */
    var nodes: seq<Node>
    /** The entry state of the machine (`BaseState`), if set. */
    var baseState: Option<NodeId>

    ghost predicate Valid()
      reads this
    {
      && WellFormed(nodes)
      && (baseState.Some? ==> baseState.value < |nodes|)
    }

    /** A new driver has no base state. */
    constructor ()
      ensures Valid() && nodes == [] && baseState == None
    {
      nodes := [];
      baseState := None;
    }

    /** The `BaseState` setter: replaces the root and nothing else. */
    method SetBaseState(root: Option<NodeId>)
      requires Valid() && (root.Some? ==> root.value < |nodes|)
      modifies this`baseState
      ensures Valid() && baseState == root
    {
      baseState := root;
    }

    // ---- construction -------------------------------------------------------

    /**
     * `new StateMachineState(...)`: a composite at level 0 with no parent, no
     * children, no initial or current child and no transitions.
     */
    method NewStateMachineState(stateName: string, entryActions: ActionHandle, regActions: ActionHandle, exitActions: ActionHandle)
      returns (id: NodeId)
      requires Valid()
      modifies this`nodes
      ensures Valid() && id == |old(nodes)|
      ensures nodes == old(nodes) + [StateMachineState(stateName, 0, None, entryActions, regActions, exitActions, [], [], None, None)]
    {
      id := |nodes|;
      nodes := nodes + [StateMachineState(stateName, 0, None, entryActions, regActions, exitActions, [], [], None, None)];
      forall j | 0 <= j < |nodes|
        ensures RefsInRange(nodes, j)
      {
        if j < |old(nodes)| {
          assert RefsInRange(old(nodes), j);
        }
      }
    }

    /** `new EndState(...)`: a leaf at level 0 with no parent and no transitions. */
    method NewEndState(stateName: string, entryActions: ActionHandle, regActions: ActionHandle, exitActions: ActionHandle)
      returns (id: NodeId)
      requires Valid()
      modifies this`nodes
      ensures Valid() && id == |old(nodes)|
      ensures nodes == old(nodes) + [EndState(stateName, 0, None, entryActions, regActions, exitActions, [])]
    {
      id := |nodes|;
      nodes := nodes + [EndState(stateName, 0, None, entryActions, regActions, exitActions, [])];
      forall j | 0 <= j < |nodes|
        ensures RefsInRange(nodes, j)
      {
        if j < |old(nodes)| {
          assert RefsInRange(old(nodes), j);
        }
      }
    }

    /** The `Level` setter: changes that node's level only. */
    method SetLevel(i: NodeId, level: int)
      requires Valid() && i < |nodes|
      modifies this`nodes
      ensures Valid() && nodes == old(nodes)[i := old(nodes[i]).(level := level)]
    {
      nodes := nodes[i := nodes[i].(level := level)];
      forall j | 0 <= j < |nodes|
        ensures RefsInRange(nodes, j)
      {
        if j < |old(nodes)| {
          assert RefsInRange(old(nodes), j);
        }
      }
    }

    /** The `Parent` setter: changes that node's parent only; a parent is always a composite. */
    method SetParent(i: NodeId, parent: Option<NodeId>)
      requires Valid() && i < |nodes|
      requires parent.Some? ==> parent.value < |nodes| && nodes[parent.value].StateMachineState?
      modifies this`nodes
      ensures Valid() && nodes == old(nodes)[i := old(nodes[i]).(parent := parent)]
    {
      nodes := nodes[i := nodes[i].(parent := parent)];
      forall j | 0 <= j < |nodes|
        ensures RefsInRange(nodes, j)
      {
        if j < |old(nodes)| {
          assert RefsInRange(old(nodes), j);
        }
      }
    }

    /** `AddTransition`: appends to node `i`'s transitions, keeping the earlier ones in order. */
    method AddTransition(i: NodeId, transitionToAdd: StateTransition)
      requires Valid() && i < |nodes| && transitionToAdd.targetState < |nodes|
      modifies this`nodes
      ensures Valid()
      ensures nodes == old(nodes)[i := old(nodes[i]).(transitions := old(nodes[i].transitions) + [transitionToAdd])]
    {
      nodes := nodes[i := nodes[i].(transitions := nodes[i].transitions + [transitionToAdd])];
      forall j | 0 <= j < |nodes|
        ensures RefsInRange(nodes, j)
      {
        if j < |old(nodes)| {
          assert RefsInRange(old(nodes), j);
        }
      }
    }

    /**
     * `AddState` on composite `n`: append the child, make `n` its parent, put
     * it one level below `n`, and make the first child added the initial one.
     */
    method AddState(n: NodeId, stateToAdd: NodeId)
      requires Valid() && n < |nodes| && nodes[n].StateMachineState? && stateToAdd < |nodes|
      modifies this`nodes
      ensures Valid() && |nodes| == |old(nodes)|
      ensures forall i :: 0 <= i < |nodes| && i != n && i != stateToAdd ==> nodes[i] == old(nodes[i])
      ensures n != stateToAdd ==>
        && nodes[n] == old(nodes[n]).(states := old(nodes[n].states) + [stateToAdd],
                                      initialState := if old(nodes[n].states) == [] then Some(stateToAdd) else old(nodes[n].initialState))
        && nodes[stateToAdd] == old(nodes[stateToAdd]).(parent := Some(n), level := old(nodes[n].level) + 1)
      ensures n == stateToAdd ==>
        nodes[n] == old(nodes[n]).(states := old(nodes[n].states) + [n], parent := Some(n), level := old(nodes[n].level) + 1,
                                   initialState := if old(nodes[n].states) == [] then Some(n) else old(nodes[n].initialState))
    {
      ghost var ns0 := nodes;
      nodes := nodes[n := nodes[n].(states := nodes[n].states + [stateToAdd])];
      nodes := nodes[stateToAdd := nodes[stateToAdd].(parent := Some(n))];
      nodes := nodes[stateToAdd := nodes[stateToAdd].(level := nodes[n].level + 1)];
      if |nodes[n].states| == 1 {
        nodes := nodes[n := nodes[n].(initialState := Some(nodes[n].states[0]))];
      }
      AddStateKeepsWellFormed(ns0, nodes, n, stateToAdd);
    }

    /** `SetInitialState(index)`: selects child `index` when there is one, else changes nothing. */
    method SetInitialStateIndex(n: NodeId, index: int)
      requires Valid() && n < |nodes| && nodes[n].StateMachineState?
      requires 0 <= index
      modifies this`nodes
      ensures Valid()
      ensures index < |old(nodes[n].states)| ==>
        nodes == old(nodes)[n := old(nodes[n]).(initialState := Some(old(nodes[n].states)[index]))]
      ensures index >= |old(nodes[n].states)| ==> nodes == old(nodes)
    {
      if index < |nodes[n].states| {
        assert RefsInRange(nodes, n) && nodes[n].states[index] in nodes[n].states;
        nodes := nodes[n := nodes[n].(initialState := Some(nodes[n].states[index]))];
        forall j | 0 <= j < |nodes|
          ensures RefsInRange(nodes, j)
        {
          if j < |old(nodes)| {
            assert RefsInRange(old(nodes), j);
          }
        }
      }
    }

    /**
     * `SetInitialState(state)`: selects the state if it already is a child;
     * otherwise appends it to the children, without touching its parent or
     * level, and selects it.
     */
    method SetInitialState(n: NodeId, initialState: NodeId)
      requires Valid() && n < |nodes| && nodes[n].StateMachineState? && initialState < |nodes|
      modifies this`nodes
      ensures Valid()
      ensures nodes == old(nodes)[n := old(nodes[n]).(
        states := if initialState in old(nodes[n].states) then old(nodes[n].states) else old(nodes[n].states) + [initialState],
        initialState := Some(initialState))]
    {
      var states := nodes[n].states;
      var i := 0;
      while i < |states|
        invariant 0 <= i <= |states|
        invariant forall j :: 0 <= j < i ==> states[j] != initialState
        invariant nodes == old(nodes)
      {
        if states[i] == initialState {
          nodes := nodes[n := nodes[n].(initialState := Some(initialState))];
          forall j | 0 <= j < |nodes|
            ensures RefsInRange(nodes, j)
          {
            if j < |old(nodes)| {
              assert RefsInRange(old(nodes), j);
            }
          }
          return;
        }
        i := i + 1;
      }
      nodes := nodes[n := nodes[n].(states := nodes[n].states + [initialState])];
      nodes := nodes[n := nodes[n].(initialState := Some(initialState))];
      forall j | 0 <= j < |nodes|
        ensures RefsInRange(nodes, j)
      {
        if j < |old(nodes)| {
          assert RefsInRange(old(nodes), j);
        }
      }
    }

    // ---- ticking ------------------------------------------------------------

    /**
     * `UpdateDown` on composite `p`, the parent of `targetState`: climb `level`
     * parents first, then exit `p`'s current child, enter `targetState`.
     */
    method UpdateDown(p: NodeId, targetState: NodeId, level: nat) returns (actions: seq<ActionHandle>)
      requires Consistent(nodes) && p < |nodes| && targetState < |nodes|
      requires nodes[targetState].parent == Some(p) && level <= nodes[p].level
      modifies this`nodes
      ensures Descent(actions, nodes) == Hierarchy.UpdateDown(old(nodes), p, targetState, level)
      decreases level
    {
      assert RefsInRange(nodes, targetState) && RefsInRange(nodes, p) && Levelled(nodes, p);
      actions := [];
      if level > 0 {
        actions := UpdateDown(nodes[p].parent.value, p, level - 1);
      }
      assert Shape(nodes[p]) == Shape(old(nodes)[p]);
      assert RefsInRange(nodes, p);
      if nodes[p].currentState.Some? {
        actions := actions + [nodes[nodes[p].currentState.value].exitActions];
      }
      nodes := nodes[p := nodes[p].(currentState := Some(targetState))];
      actions := actions + [nodes[targetState].entryActions];
    }

    /**
     * `Update` on node `n`: the base `Update` for a leaf, the composite one
     * (enter, check the current child's transitions, delegate, resolve) for
     * a composite.
     */
    method Update(n: NodeId, env: Env) returns (res: UpdateResult)
      requires Consistent(nodes) && n < |nodes|
      modifies this`nodes
      ensures Outcome(res, nodes) == Hierarchy.Update(old(nodes), n, env)
      decreases MaxLevel(nodes) - nodes[n].level
    {
      if nodes[n].EndState? {
        res := UpdateResult([nodes[n].regActions], None, 0);
        return;
      }
      assert RefsInRange(nodes, n) && Levelled(nodes, n);
      if nodes[n].currentState.None? {
        nodes := nodes[n := nodes[n].(currentState := nodes[n].initialState)];
        res := UpdateResult([nodes[nodes[n].currentState.value].entryActions], None, 0);
        return;
      }
      var c := nodes[n].currentState.value;
      assert RefsInRange(nodes, c);
      var trigger := ScanTransitions(nodes[c].transitions, Guard, env);
      if trigger.Some? {
        res := UpdateResult([], trigger, GetLevel(nodes, trigger.value, c));
      } else {
        res := Update(c, env);
      }
      assert Outcome(res, nodes) == if trigger.Some? then Detect(old(nodes), n, c, trigger.value) else Hierarchy.Update(old(nodes), c, env);
      res := Resolve(old(nodes), n, res);
    }

    /**
     * The second half of the composite `Update`: act on the transition that
     * the current child's check or its own `Update` returned.
     */
    method Resolve(ghost ns: seq<Node>, n: NodeId, res0: UpdateResult) returns (res: UpdateResult)
      requires Consistent(ns) && n < |ns| && ns[n].StateMachineState?
      requires Consistent(nodes) && SameShape(ns, nodes)
      requires res0.transition.Some? ==> Detected(ns, n, Outcome(res0, nodes))
      modifies this`nodes
      ensures Outcome(res, nodes) == Hierarchy.Resolve(ns, n, Outcome(res0, old(nodes)))
    {
      if res0.transition.None? {
        assert Shape(nodes[n]) == Shape(ns[n]);
        res := res0.(actions := res0.actions + [nodes[n].regActions]);
      } else if res0.level == 0 {
        res := TakeHere(ns, n, res0);
      } else if res0.level > 0 {
        res := PassUp(ns, n, res0);
      } else {
        res := RouteDown(ns, n, res0);
      }
    }

    /** A transition between two children of `n`: exit, transition, enter, then `n`'s regular action. */
    method TakeHere(ghost ns: seq<Node>, n: NodeId, res0: UpdateResult) returns (res: UpdateResult)
      requires Consistent(ns) && n < |ns| && ns[n].StateMachineState?
      requires Consistent(nodes) && SameShape(ns, nodes)
      requires res0.transition.Some? && res0.level == 0 && Detected(ns, n, Outcome(res0, nodes))
      modifies this`nodes
      ensures Outcome(res, nodes) == Hierarchy.Resolve(ns, n, Outcome(res0, old(nodes)))
    {
      var t := res0.transition.value;
      assert Shape(nodes[n]) == Shape(ns[n]) && Shape(nodes[t.targetState]) == Shape(ns[t.targetState]);
      assert RefsInRange(nodes, n) && Levelled(ns, n);
      var cur := nodes[n].currentState.value;
      var acts := res0.actions + [nodes[cur].exitActions, t.transitionActions, nodes[t.targetState].entryActions];
      nodes := nodes[n := nodes[n].(currentState := Some(t.targetState))];
      res := UpdateResult(acts + [nodes[n].regActions], None, res0.level);
    }

    /** A transition whose target lies above `n`'s children: exit the current child and pass it up. */
    method PassUp(ghost ns: seq<Node>, n: NodeId, res0: UpdateResult) returns (res: UpdateResult)
      requires Consistent(ns) && n < |ns| && ns[n].StateMachineState?
      requires Consistent(nodes) && SameShape(ns, nodes)
      requires res0.transition.Some? && res0.level > 0 && Detected(ns, n, Outcome(res0, nodes))
      modifies this`nodes
      ensures Outcome(res, nodes) == Hierarchy.Resolve(ns, n, Outcome(res0, old(nodes)))
    {
      assert Shape(nodes[n]) == Shape(ns[n]);
      assert RefsInRange(nodes, n) && Levelled(ns, n);
      var cur := nodes[n].currentState.value;
      res := UpdateResult(res0.actions + [nodes[cur].exitActions], res0.transition, res0.level - 1);
      nodes := nodes[n := nodes[n].(currentState := None)];
    }

    /**
     * A transition whose target lies below `n`'s children: the target's
     * parent climbs back up and re-enters each level on the way to the target.
     */
    method RouteDown(ghost ns: seq<Node>, n: NodeId, res0: UpdateResult) returns (res: UpdateResult)
      requires Consistent(ns) && n < |ns| && ns[n].StateMachineState?
      requires Consistent(nodes) && SameShape(ns, nodes)
      requires res0.transition.Some? && res0.level < 0 && Detected(ns, n, Outcome(res0, nodes))
      modifies this`nodes
      ensures Outcome(res, nodes) == Hierarchy.Resolve(ns, n, Outcome(res0, old(nodes)))
    {
      var t := res0.transition.value;
      var target := t.targetState;
      assert Shape(nodes[n]) == Shape(ns[n]) && Shape(nodes[target]) == Shape(ns[target]);
      assert Levelled(ns, n) && Levelled(ns, target);
      assert RefsInRange(nodes, target) && Levelled(nodes, target);
      var p := nodes[target].parent.value;
      assert Levelled(nodes, p);
      var acts := res0.actions + [t.transitionActions];
      var down := UpdateDown(p, target, -res0.level);
      res := UpdateResult(acts + down, None, res0.level);
    }

    /**
     * `GetActions`: one tick. With no base state the answer is empty and
     * nothing changes; otherwise it is the root's `Update` actions, and any
     * transition still pending at the root is dropped.
     */
    method GetActions(env: Env) returns (actions: seq<ActionHandle>)
      requires Valid() && (baseState.Some? ==> Consistent(nodes))
      modifies this`nodes
      ensures Valid()
      ensures baseState.None? ==> actions == [] && nodes == old(nodes)
      ensures baseState.Some? ==>
        && actions == Hierarchy.Update(old(nodes), baseState.value, env).result.actions
        && nodes == Hierarchy.Update(old(nodes), baseState.value, env).nodes
    {
      if baseState.Some? {
        var res := Update(baseState.value, env);
        actions := res.actions;
      } else {
        actions := [];
      }
    }
  }

  /** The arena `BuildTopDown` ends with: R = 0, A = 1, B = 2, A1 = 3. */
  function TopDownTree(): seq<Node>
  {
    [ StateMachineState("R", 0, None, Handle(1), Handle(2), Handle(3), [], [1, 2], Some(1), None),
      StateMachineState("A", 1, Some(0), Handle(11), Handle(12), Handle(13), [], [3], Some(3), None),
      EndState("B", 1, Some(0), Handle(21), Handle(22), Handle(23), []),
      EndState("A1", 2, Some(1), Handle(31), Handle(32), Handle(33), []) ]
  }

  /** That arena is consistent, and its first tick from R enters A and nothing else. */
  lemma TopDownTreeTicks(env: Env)
    ensures Consistent(TopDownTree())
    ensures Update(TopDownTree(), 0, env).result.actions == [Handle(11)]
  {
    var ns := TopDownTree();
    forall i | 0 <= i < |ns|
      ensures RefsInRange(ns, i) && Levelled(ns, i)
    {
    }
  }

  /**
   * A client building the tree R { A { A1 }, B } top-down: every composite is
   * attached to its parent before its own children are added, and every
   * composite gets a child. That order yields a consistent tree, so the first
   * tick is allowed; it enters R's initial child A and does nothing else.
   */
  method BuildTopDown(env: Env) returns (m: HierarchicalStateMachine, actions: seq<ActionHandle>)
    ensures m.Valid() && m.baseState.Some? && m.baseState.value < |m.nodes|
    ensures Consistent(m.nodes)
    ensures actions == [Handle(11)]
  {
    m := new HierarchicalStateMachine();
    var r := m.NewStateMachineState("R", Handle(1), Handle(2), Handle(3));
    var a := m.NewStateMachineState("A", Handle(11), Handle(12), Handle(13));
    var b := m.NewEndState("B", Handle(21), Handle(22), Handle(23));
    var a1 := m.NewEndState("A1", Handle(31), Handle(32), Handle(33));
    assert r == 0 && a == 1 && b == 2 && a1 == 3;
    m.AddState(r, a);
    m.AddState(r, b);
    m.AddState(a, a1);
    m.SetBaseState(Some(r));
    assert m.nodes[0] == TopDownTree()[0] && m.nodes[1] == TopDownTree()[1];
    assert m.nodes[2] == TopDownTree()[2] && m.nodes[3] == TopDownTree()[3];
    assert m.nodes == TopDownTree();
    TopDownTreeTicks(env);
    actions := m.GetActions(env);
  }

  /**
   * The same tree built children first: `AddState` sets the level of the
   * child it adds but not of that child's own children, so A1 stays one
   * level below A's old level 0, at A's new level 1, and the tree is not
   * consistent.
   */
  method BuildBottomUp() returns (m: HierarchicalStateMachine)
    ensures m.Valid() && !Consistent(m.nodes)
  {
    m := new HierarchicalStateMachine();
    var r := m.NewStateMachineState("R", Handle(1), Handle(2), Handle(3));
    var a := m.NewStateMachineState("A", Handle(11), Handle(12), Handle(13));
    var b := m.NewEndState("B", Handle(21), Handle(22), Handle(23));
    var a1 := m.NewEndState("A1", Handle(31), Handle(32), Handle(33));
    m.AddState(a, a1);
    m.AddState(r, a);
    m.AddState(r, b);
    assert m.nodes[a1].level == 1 && m.nodes[a1].parent == Some(a) && m.nodes[a].level == 1;
    assert !Levelled(m.nodes, a1);
  }
}
