/**
 * What one tick of the hierarchical engine does, stated over the active
 * chain of the node being updated: a quiet tick, entering one level, a
 * transition that fires somewhere on the chain, and routing down.
 */
module HierarchyProperties {
  import opened Wrappers
  import opened Actions
  import opened Conditions
  import opened Hierarchy

  /** The regular actions of the nodes of `s`, deepest (last) first. */
  function Regs(ns: seq<Node>, s: seq<NodeId>): seq<ActionHandle>
    requires forall i :: 0 <= i < |s| ==> s[i] < |ns|
  {
    if |s| == 0 then [] else Regs(ns, s[1..]) + [ns[s[0]].regActions]
  }

  /** The exit actions of the nodes of `s`, deepest (last) first. */
  function Exits(ns: seq<Node>, s: seq<NodeId>): seq<ActionHandle>
    requires forall i :: 0 <= i < |s| ==> s[i] < |ns|
  {
    if |s| == 0 then [] else Exits(ns, s[1..]) + [ns[s[0]].exitActions]
  }

  /** Node `x` has no transition that fires. */
  ghost predicate Silent(ns: seq<Node>, x: NodeId, env: Env)
  {
    x < |ns| && RefsInRange(ns, x) && Trigger(ns, x, env).None?
  }

  /** No node below `n` on its active chain has a transition that fires. */
  ghost predicate Quiet(ns: seq<Node>, n: NodeId, env: Env)
    requires Consistent(ns) && n < |ns|
  {
    var chain := ActiveChain(ns, n);
    forall i :: 1 <= i < |chain| ==> Silent(ns, chain[i], env)
  }

  /** The deepest active node below `n`. */
  function Tip(ns: seq<Node>, n: NodeId): (l: NodeId)
    requires Consistent(ns) && n < |ns|
    ensures l < |ns| && (ns[l].EndState? || ns[l].currentState.None?)
    ensures ns[l].StateMachineState? ==> ns[l].initialState.Some? && ns[l].initialState.value < |ns|
  {
    var chain := ActiveChain(ns, n);
    var l := chain[|chain| - 1];
    assert RefsInRange(ns, l) && Levelled(ns, l);
    l
  }

  /** A leaf's tick is its regular action alone: no transition, level 0, nothing changes. */
  lemma LeafUpdate(ns: seq<Node>, n: NodeId, env: Env)
    requires Consistent(ns) && n < |ns| && ns[n].EndState?
    ensures Update(ns, n, env) == Outcome(UpdateResult([ns[n].regActions], None, 0), ns)
  {
  }

  /**
   * A composite without a current child enters its initial child and stops:
   * exactly that child's entry action, no transition checked or reported.
   */
  lemma EnterInitial(ns: seq<Node>, n: NodeId, env: Env)
    requires Consistent(ns) && n < |ns| && ns[n].StateMachineState? && ns[n].currentState.None?
    ensures RefsInRange(ns, n) && Levelled(ns, n)
    ensures Update(ns, n, env) ==
      Outcome(UpdateResult([ns[ns[n].initialState.value].entryActions], None, 0), SetCurrent(ns, n, ns[n].initialState))
  {
    assert RefsInRange(ns, n) && Levelled(ns, n);
  }

  /** A composite with a current child whose transitions stay quiet delegates to the child and resolves its result. */
  lemma Delegates(ns: seq<Node>, n: NodeId, env: Env)
    requires Consistent(ns) && n < |ns| && ns[n].StateMachineState? && ns[n].currentState.Some?
    requires RefsInRange(ns, n) && Levelled(ns, n) && RefsInRange(ns, ns[n].currentState.value)
    requires Trigger(ns, ns[n].currentState.value, env).None?
    ensures Update(ns, n, env) == Resolve(ns, n, Update(ns, ns[n].currentState.value, env))
  {
  }

  /** Resolving a result without a transition appends the composite's regular action. */
  lemma ResolveQuiet(ns: seq<Node>, n: NodeId, o: Outcome)
    requires Consistent(ns) && n < |ns| && ns[n].StateMachineState?
    requires Consistent(o.nodes) && SameShape(ns, o.nodes) && o.result.transition.None?
    ensures Resolve(ns, n, o) == Outcome(o.result.(actions := o.result.actions + [ns[n].regActions]), o.nodes)
  {
    assert Shape(o.nodes[n]) == Shape(ns[n]);
  }

  /**
   * The outcome of a quiet tick along `chain`: the tip contributes its
   * regular action (a leaf) or its initial child's entry action (a composite
   * not yet entered), every node above it adds its regular action, deepest
   * first, and only the tip's current-child pointer may change.
   */
  ghost predicate QuietOn(ns: seq<Node>, chain: seq<NodeId>, o: Outcome)
    requires ChainIn(ns, chain)
  {
    var l := chain[|chain| - 1];
    && o.result.transition.None? && o.result.level == 0
    && (ns[l].EndState? ==>
          o.result.actions == Regs(ns, chain) && o.nodes == ns)
    && (ns[l].StateMachineState? ==>
          && ns[l].initialState.Some? && ns[l].initialState.value < |ns|
          && o.result.actions == [ns[ns[l].initialState.value].entryActions] + Regs(ns, chain[..|chain| - 1])
          && o.nodes == SetCurrent(ns, l, ns[l].initialState))
  }

  /** The outcome `QuietTick` promises for node `n`. */
  ghost predicate QuietResult(ns: seq<Node>, n: NodeId, o: Outcome)
    requires Consistent(ns) && n < |ns|
  {
    ActiveChainIn(ns, n);
    QuietOn(ns, ActiveChain(ns, n), o)
  }

  /** One delegation step of a quiet tick: the head adds its regular action after its child's. */
  lemma QuietStep(ns: seq<Node>, n: NodeId, sub: seq<NodeId>, oc: Outcome, o: Outcome)
    requires n < |ns| && ChainIn(ns, sub) && ChainIn(ns, [n] + sub) && QuietOn(ns, sub, oc)
    requires o == Outcome(oc.result.(actions := oc.result.actions + [ns[n].regActions]), oc.nodes)
    ensures QuietOn(ns, [n] + sub, o)
  {
    var chain := [n] + sub;
    var l := sub[|sub| - 1];
    assert chain[|chain| - 1] == l;
    if ns[l].EndState? {
      ActionsCons(ns, n, sub);
    } else {
      ConsSlices(n, sub, |sub| - 1, |sub| - 1);
      ActionsCons(ns, n, sub[..|sub| - 1]);
    }
  }

  /**
   * A quiet tick: the tip contributes its regular action (a leaf) or its
   * initial child's entry action (a composite not yet entered), and then
   * every active node above it adds its regular action, deepest first. No
   * transition is reported, and the only pointer that changes is the tip's,
   * which is set to its initial child.
   */
  lemma {:induction false} QuietTick(ns: seq<Node>, n: NodeId, env: Env)
    requires Consistent(ns) && n < |ns| && Quiet(ns, n, env)
    ensures QuietResult(ns, n, Update(ns, n, env))
    decreases MaxLevel(ns) - ns[n].level
  {
    ActiveChainIn(ns, n);
    assert RefsInRange(ns, n) && Levelled(ns, n);
    if ns[n].EndState? {
      LeafUpdate(ns, n, env);
      ChainStops(ns, n);
      ActionsCons(ns, n, []);
    } else if ns[n].currentState.None? {
      EnterInitial(ns, n, env);
      ChainStops(ns, n);
      assert [n][..0] == [];
    } else {
      var c := ns[n].currentState.value;
      QuietChild(ns, n, env);
      QuietTick(ns, c, env);
      ActiveChainIn(ns, c);
      DelegateQuiet(ns, n, c, env);
      QuietStep(ns, n, ActiveChain(ns, c), Update(ns, c, env), Update(ns, n, env));
    }
  }

  /** Below a quiet composite, its current child is quiet too and has no transition that fires. */
  lemma QuietChild(ns: seq<Node>, n: NodeId, env: Env)
    requires Consistent(ns) && n < |ns| && Quiet(ns, n, env)
    requires ns[n].StateMachineState? && ns[n].currentState.Some?
    ensures ns[n].currentState.value < |ns|
    ensures ActiveChain(ns, n) == [n] + ActiveChain(ns, ns[n].currentState.value)
    ensures RefsInRange(ns, ns[n].currentState.value) && Trigger(ns, ns[n].currentState.value, env).None?
    ensures Quiet(ns, ns[n].currentState.value, env)
  {
    var c := ns[n].currentState.value;
    ChainGoesOn(ns, n);
    SilentTail(ns, n, ActiveChain(ns, c), env);
  }

  /** Every node after the head of `[n] + sub` is silent: so is every node of `sub`. */
  lemma SilentTail(ns: seq<Node>, n: NodeId, sub: seq<NodeId>, env: Env)
    requires forall i :: 1 <= i < |[n] + sub| ==> Silent(ns, ([n] + sub)[i], env)
    ensures forall i :: 0 <= i < |sub| ==> Silent(ns, sub[i], env)
  {
    forall i | 0 <= i < |sub|
      ensures Silent(ns, sub[i], env)
    {
      assert sub[i] == ([n] + sub)[i + 1];
    }
  }

  /** A quiet tick whose tip is a leaf changes nothing, so the next tick with the same inputs repeats it. */
  lemma SteadyTickRepeats(ns: seq<Node>, n: NodeId, env: Env)
    requires Consistent(ns) && n < |ns| && Quiet(ns, n, env) && ns[Tip(ns, n)].EndState?
    ensures Update(ns, n, env).nodes == ns
    ensures Update(ns, n, env).result.actions == Regs(ns, ActiveChain(ns, n))
    ensures Update(Update(ns, n, env).nodes, n, env) == Update(ns, n, env)
  {
    QuietTick(ns, n, env);
  }

  // ---- entering one level per tick ------------------------------------------

  /**
   * Changing only nodes shallower than `m` leaves the active chain below `m`
   * as it was.
   */
  lemma {:induction false} ChainFrame(ns: seq<Node>, ns': seq<Node>, m: NodeId)
    requires Consistent(ns) && Consistent(ns') && m < |ns| && |ns'| == |ns|
    requires forall i :: 0 <= i < |ns| && ns[i].level >= ns[m].level ==> ns'[i] == ns[i]
    ensures ActiveChain(ns', m) == ActiveChain(ns, m)
    decreases MaxLevel(ns) - ns[m].level
  {
    assert RefsInRange(ns, m) && Levelled(ns, m);
    if ns[m].StateMachineState? && ns[m].currentState.Some? {
      var c := ns[m].currentState.value;
      ChainFrame(ns, ns', c);
    }
  }

  /** Entering the initial child of a composite that has no current child. */
  lemma EnterAtTip(ns: seq<Node>, l: NodeId)
    requires Consistent(ns) && l < |ns| && ns[l].StateMachineState? && ns[l].currentState.None?
    ensures RefsInRange(ns, l) && Levelled(ns, l)
    ensures Consistent(SetCurrent(ns, l, ns[l].initialState))
    ensures ActiveChain(SetCurrent(ns, l, ns[l].initialState), l) == [l] + ActiveChain(ns, ns[l].initialState.value)
  {
    assert RefsInRange(ns, l) && Levelled(ns, l);
    var x := ns[l].initialState.value;
    SetCurrentKeepsConsistent(ns, l, Some(x));
    var ns' := SetCurrent(ns, l, Some(x));
    forall i | 0 <= i < |ns| && ns[i].level >= ns[x].level
      ensures ns'[i] == ns[i]
    {
      assert i != l;
    }
    ChainFrame(ns, ns', x);
  }

  /** The active chain of a node without a current child is the node alone. */
  lemma ChainStops(ns: seq<Node>, n: NodeId)
    requires Consistent(ns) && n < |ns| && (ns[n].EndState? || ns[n].currentState.None?)
    ensures ActiveChain(ns, n) == [n] && Tip(ns, n) == n
  {
  }

  /** The active chain of a node with a current child continues with the child's. */
  lemma ChainGoesOn(ns: seq<Node>, n: NodeId)
    requires Consistent(ns) && n < |ns| && ns[n].StateMachineState? && ns[n].currentState.Some?
    ensures ns[n].currentState.value < |ns|
    ensures ActiveChain(ns, n) == [n] + ActiveChain(ns, ns[n].currentState.value)
    ensures Tip(ns, n) == Tip(ns, ns[n].currentState.value)
  {
    assert RefsInRange(ns, n);
    var sub := ActiveChain(ns, ns[n].currentState.value);
    assert ActiveChain(ns, n) == [n] + sub;
    assert ([n] + sub)[|sub|] == sub[|sub| - 1];
  }

  /** One level of `EnterExtendsChain`: a node the change leaves alone keeps leading the longer chain. */
  lemma EnterStep(ns: seq<Node>, ns': seq<Node>, n: NodeId, x: NodeId)
    requires Consistent(ns) && Consistent(ns') && n < |ns| && x < |ns| && |ns'| == |ns|
    requires ns[n].StateMachineState? && ns[n].currentState.Some? && ns'[n] == ns[n]
    requires ns[n].currentState.value < |ns|
    requires ActiveChain(ns', ns[n].currentState.value) == ActiveChain(ns, ns[n].currentState.value) + ActiveChain(ns, x)
    ensures ActiveChain(ns', n) == ActiveChain(ns, n) + ActiveChain(ns, x)
  {
    var c := ns[n].currentState.value;
    ChainGoesOn(ns, n);
    ChainGoesOn(ns', n);
    ConsAppend(n, ActiveChain(ns, c), ActiveChain(ns, x));
  }

  /** Putting an element in front of a concatenation. */
  lemma ConsAppend<T>(x: T, a: seq<T>, b: seq<T>)
    ensures [x] + (a + b) == ([x] + a) + b
  {
  }

  /**
   * Entering the tip's initial child appends that child's own active chain:
   * the tip and everything above it stay as they were.
   */
  lemma {:induction false} EnterExtendsChain(ns: seq<Node>, n: NodeId)
    requires Consistent(ns) && n < |ns| && ns[Tip(ns, n)].StateMachineState?
    ensures var l := Tip(ns, n);
      && Consistent(SetCurrent(ns, l, ns[l].initialState))
      && ActiveChain(SetCurrent(ns, l, ns[l].initialState), n) == ActiveChain(ns, n) + ActiveChain(ns, ns[l].initialState.value)
    decreases MaxLevel(ns) - ns[n].level
  {
    var l := Tip(ns, n);
    EnterAtTip(ns, l);
    var x := ns[l].initialState.value;
    var ns' := SetCurrent(ns, l, ns[l].initialState);
    if ns[n].EndState? || ns[n].currentState.None? {
      ChainStops(ns, n);
    } else {
      var c := ns[n].currentState.value;
      ChainGoesOn(ns, n);
      assert RefsInRange(ns, n) && Levelled(ns, n);
      EnterExtendsChain(ns, c);
      EnterStep(ns, ns', n, x);
    }
  }

  /**
   * A composite enters one level per tick: after a quiet tick whose tip is a
   * composite not yet entered, the active chain has grown by exactly the
   * initial child (and whatever current-child pointers that child still
   * holds from before).
   */
  lemma EntersOneLevel(ns: seq<Node>, n: NodeId, env: Env)
    requires Consistent(ns) && n < |ns| && Quiet(ns, n, env) && ns[Tip(ns, n)].StateMachineState?
    ensures var l := Tip(ns, n);
      ActiveChain(Update(ns, n, env).nodes, n) == ActiveChain(ns, n) + ActiveChain(ns, ns[l].initialState.value)
  {
    QuietTick(ns, n, env);
    EnterExtendsChain(ns, n);
  }

  // ---- a transition that fires on the active chain ---------------------------

  /**
   * `chain` names nodes of the arena, and every node on it but the last is a
   * composite: the shape of an active chain.
   */
  ghost predicate ChainIn(ns: seq<Node>, chain: seq<NodeId>)
  {
    && |chain| >= 1
    && (forall i :: 0 <= i < |chain| ==> chain[i] < |ns|)
    && (forall i :: 0 <= i < |chain| - 1 ==> ns[chain[i]].StateMachineState?)
  }

  /** An active chain has the shape of one. */
  lemma ActiveChainIn(ns: seq<Node>, n: NodeId)
    requires Consistent(ns) && n < |ns|
    ensures ChainIn(ns, ActiveChain(ns, n))
  {
    var chain := ActiveChain(ns, n);
    forall i | 0 <= i < |chain| - 1
      ensures ns[chain[i]].StateMachineState?
    {
      assert chain[i + 1] < |ns|;
    }
  }

  /** The arena with the current-child pointers of the nodes of `s` cleared. */
  function Cleared(ns: seq<Node>, s: seq<NodeId>): (r: seq<Node>)
    ensures |r| == |ns|
  {
    seq(|ns|, i requires 0 <= i < |ns| => if i in s then Shape(ns[i]) else ns[i])
  }

  /** Clearing one more composite, not yet among the cleared ones. */
  lemma ClearedStep(ns: seq<Node>, n: NodeId, s: seq<NodeId>)
    requires n < |ns| && ns[n].StateMachineState? && n !in s
    ensures Cleared(ns, s)[n] == ns[n]
    ensures SetCurrent(Cleared(ns, s), n, None) == Cleared(ns, [n] + s)
  {
    assert forall i :: 0 <= i < |ns| ==> SetCurrent(Cleared(ns, s), n, None)[i] == Cleared(ns, [n] + s)[i];
  }

  /**
   * Below `n`, the active node at depth `j` is the first whose transitions
   * fire, and `t` is its first transition that does.
   */
  ghost predicate FiresAt(ns: seq<Node>, n: NodeId, env: Env, j: nat, t: StateTransition)
    requires Consistent(ns) && n < |ns|
  {
    FiresOn(ns, ActiveChain(ns, n), env, j, t)
  }

  /** `t` is the first transition to fire along `chain`, at depth `j`; every node between the head and it is silent. */
  ghost predicate FiresOn(ns: seq<Node>, chain: seq<NodeId>, env: Env, j: nat, t: StateTransition)
  {
    && 1 <= j < |chain|
    && (forall i :: 1 <= i < j ==> Silent(ns, chain[i], env))
    && chain[j] < |ns| && RefsInRange(ns, chain[j])
    && Trigger(ns, chain[j], env) == Some(t)
  }

  /** Dropping the head of `[n] + sub`, which is silent there, moves the firing node one step closer. */
  lemma FiresOnTail(ns: seq<Node>, n: NodeId, sub: seq<NodeId>, env: Env, j: nat, t: StateTransition)
    requires FiresOn(ns, [n] + sub, env, j, t) && j >= 2
    ensures Silent(ns, sub[0], env)
    ensures FiresOn(ns, sub, env, j - 1, t)
  {
    assert sub[0] == ([n] + sub)[1];
    assert sub[j - 1] == ([n] + sub)[j];
    forall i | 1 <= i < j - 1
      ensures Silent(ns, sub[i], env)
    {
      assert sub[i] == ([n] + sub)[i + 1];
    }
  }

  /** How many levels the target of `t` lies above the node at depth `j` of `chain`. */
  function Rise(ns: seq<Node>, chain: seq<NodeId>, j: nat, t: StateTransition): int
    requires j < |chain| && chain[j] < |ns| && t.targetState < |ns|
  {
    ns[chain[j]].level - ns[t.targetState].level
  }

  /**
   * `0 <= Rise < j`: the composite at depth `r = j - 1 - Rise`, whose
   * children share the target's level, resolves the transition. The nodes
   * at depths `j` down to `r + 1` are exited innermost first, then come the
   * transition's actions, the target's entry and the regular actions from
   * depth `r` up to the head. Depths `r + 1 .. j - 1` lose their current
   * child, depth `r` points at the target, nothing else changes.
   */
  ghost predicate Resolved(ns: seq<Node>, chain: seq<NodeId>, j: nat, t: StateTransition, o: Outcome)
    requires ChainIn(ns, chain) && j < |chain| && t.targetState < |ns|
    requires 0 <= Rise(ns, chain, j, t) < j
  {
    && o.result == UpdateResult(ResolvedRun(ns, chain, j, t), None, 0)
    && o.nodes == ResolvedArena(ns, chain, j, t)
  }

  /** The actions of `Resolved`: exits, transition, entry, regular actions. */
  ghost function ResolvedRun(ns: seq<Node>, chain: seq<NodeId>, j: nat, t: StateTransition): seq<ActionHandle>
    requires ChainIn(ns, chain) && j < |chain| && t.targetState < |ns|
    requires 0 <= Rise(ns, chain, j, t) < j
  {
    var r := j - 1 - Rise(ns, chain, j, t);
    Exits(ns, chain[r + 1..j + 1]) + [t.transitionActions, ns[t.targetState].entryActions] + Regs(ns, chain[..r + 1])
  }

  /** The arena of `Resolved`: depths `r + 1 .. j - 1` cleared, depth `r` pointing at the target. */
  ghost function ResolvedArena(ns: seq<Node>, chain: seq<NodeId>, j: nat, t: StateTransition): seq<Node>
    requires ChainIn(ns, chain) && j < |chain| && t.targetState < |ns|
    requires 0 <= Rise(ns, chain, j, t) < j
  {
    var r := j - 1 - Rise(ns, chain, j, t);
    Cleared(ns, chain[r + 1..j])[chain[r] := ns[chain[r]].(currentState := Some(t.targetState))]
  }

  /**
   * `Rise >= j`: every node at depths `j .. 1` is exited, innermost first,
   * depths `0 .. j - 1` lose their current child, and the transition is
   * handed up with `Rise - j` levels still to climb.
   */
  ghost predicate Passed(ns: seq<Node>, chain: seq<NodeId>, j: nat, t: StateTransition, o: Outcome)
    requires ChainIn(ns, chain) && 1 <= j < |chain| && t.targetState < |ns|
    requires Rise(ns, chain, j, t) >= j
  {
    && o.result == UpdateResult(Exits(ns, chain[1..j + 1]), Some(t), Rise(ns, chain, j, t) - j)
    && o.nodes == Cleared(ns, chain[..j])
  }

  /**
   * `Rise < 0`: the composite at depth `j - 1` emits the transition's
   * actions and then those of the descent `down` to the target, without
   * exiting the node the transition left; the regular actions from depth
   * `j - 2` up to the head follow.
   */
  ghost predicate Routed(ns: seq<Node>, chain: seq<NodeId>, j: nat, t: StateTransition, down: Descent, o: Outcome)
    requires ChainIn(ns, chain) && 1 <= j < |chain| && t.targetState < |ns|
    requires Rise(ns, chain, j, t) < 0
  {
    && o.result == UpdateResult([t.transitionActions] + down.actions + Regs(ns, chain[..j - 1]), None, Rise(ns, chain, j, t))
    && o.nodes == down.nodes
  }

  /** `UpdateDown` from the target's parent into the target, `k` levels deep. */
  function Route(ns: seq<Node>, target: NodeId, k: nat): (d: Descent)
    requires Consistent(ns) && target < |ns| && k < ns[target].level
  {
    assert RefsInRange(ns, target) && Levelled(ns, target);
    UpdateDown(ns, ns[target].parent.value, target, k)
  }

  /** The outcome when `t` fires at depth `j` of `chain`, by how far its target lies above. */
  ghost predicate FiredOn(ns: seq<Node>, chain: seq<NodeId>, j: nat, t: StateTransition, o: Outcome)
    requires Consistent(ns) && ChainIn(ns, chain) && 1 <= j < |chain| && t.targetState < |ns|
    requires ns[chain[j]].level > 0
  {
    var d := Rise(ns, chain, j, t);
    if 0 <= d < j then Resolved(ns, chain, j, t, o)
    else if d >= j then Passed(ns, chain, j, t, o)
    else Routed(ns, chain, j, t, Route(ns, t.targetState, -d), o)
  }

  /** The outcome of `Update` on `n` when `t` fires at depth `j` below it. */
  ghost predicate FiredResult(ns: seq<Node>, n: NodeId, j: nat, t: StateTransition, o: Outcome)
    requires Consistent(ns) && n < |ns| && 1 <= j < |ActiveChain(ns, n)| && t.targetState < |ns|
  {
    var chain := ActiveChain(ns, n);
    ActiveChainIn(ns, n);
    assert RefsInRange(ns, n) && Levelled(ns, n) && ns[chain[j]].level == ns[n].level + j;
    FiredOn(ns, chain, j, t, o)
  }

  /** `FiredResult` is `FiredOn` along the active chain. */
  lemma FiredChain(ns: seq<Node>, n: NodeId, j: nat, t: StateTransition, o: Outcome)
    requires Consistent(ns) && n < |ns| && 1 <= j < |ActiveChain(ns, n)| && t.targetState < |ns|
    ensures ChainIn(ns, ActiveChain(ns, n)) && ns[ActiveChain(ns, n)[j]].level > 0
    ensures FiredResult(ns, n, j, t, o) <==> FiredOn(ns, ActiveChain(ns, n), j, t, o)
  {
    ActiveChainIn(ns, n);
    assert RefsInRange(ns, n) && Levelled(ns, n);
  }

  /** With the target `j` or more levels above the firing node, `FiredResult` is `Passed`. */
  lemma FiredPassed(ns: seq<Node>, n: NodeId, j: nat, t: StateTransition, o: Outcome)
    requires Consistent(ns) && n < |ns| && 1 <= j < |ActiveChain(ns, n)| && t.targetState < |ns|
    requires Rise(ns, ActiveChain(ns, n), j, t) >= j
    ensures ChainIn(ns, ActiveChain(ns, n))
    ensures FiredResult(ns, n, j, t, o) <==> Passed(ns, ActiveChain(ns, n), j, t, o)
  {
    FiredChain(ns, n, j, t, o);
  }

  /** With the target fewer than `j` levels above the firing node, `FiredResult` is `Resolved`. */
  lemma FiredResolved(ns: seq<Node>, n: NodeId, j: nat, t: StateTransition, o: Outcome)
    requires Consistent(ns) && n < |ns| && 1 <= j < |ActiveChain(ns, n)| && t.targetState < |ns|
    requires 0 <= Rise(ns, ActiveChain(ns, n), j, t) < j
    ensures ChainIn(ns, ActiveChain(ns, n))
    ensures FiredResult(ns, n, j, t, o) <==> Resolved(ns, ActiveChain(ns, n), j, t, o)
  {
    FiredChain(ns, n, j, t, o);
  }

  /** A transition resolved or routed on the chain is not handed further up. */
  lemma FiredSettles(ns: seq<Node>, chain: seq<NodeId>, j: nat, t: StateTransition, o: Outcome)
    requires Consistent(ns) && ChainIn(ns, chain) && 1 <= j < |chain| && t.targetState < |ns|
    requires ns[chain[j]].level > 0 && FiredOn(ns, chain, j, t, o) && Rise(ns, chain, j, t) < j
    ensures o.result.transition.None?
  {
  }

  /** Resolving a transition whose target is a sibling of the current child. */
  lemma ResolveLocal(ns: seq<Node>, n: NodeId, o: Outcome)
    requires Consistent(ns) && n < |ns| && ns[n].StateMachineState?
    requires Consistent(o.nodes) && SameShape(ns, o.nodes) && RefsInRange(o.nodes, n)
    requires o.result.transition.Some? && Detected(ns, n, o) && o.result.level == 0
    ensures var t := o.result.transition.value;
      var cur := o.nodes[n].currentState.value;
      Resolve(ns, n, o) ==
        Outcome(UpdateResult(o.result.actions + [ns[cur].exitActions, t.transitionActions, ns[t.targetState].entryActions, ns[n].regActions], None, 0),
                SetCurrent(o.nodes, n, Some(t.targetState)))
  {
    var t := o.result.transition.value;
    var cur := o.nodes[n].currentState.value;
    assert Shape(o.nodes[n]) == Shape(ns[n]) && Shape(o.nodes[cur]) == Shape(ns[cur]);
    assert Shape(o.nodes[t.targetState]) == Shape(ns[t.targetState]);
  }

  /** Resolving a transition whose target lies above `n`'s children: exit and pass it up. */
  lemma ResolveExit(ns: seq<Node>, n: NodeId, o: Outcome)
    requires Consistent(ns) && n < |ns| && ns[n].StateMachineState?
    requires Consistent(o.nodes) && SameShape(ns, o.nodes) && RefsInRange(o.nodes, n)
    requires o.result.transition.Some? && Detected(ns, n, o) && o.result.level > 0
    ensures var cur := o.nodes[n].currentState.value;
      Resolve(ns, n, o) ==
        Outcome(UpdateResult(o.result.actions + [ns[cur].exitActions], o.result.transition, o.result.level - 1),
                SetCurrent(o.nodes, n, None))
  {
    var cur := o.nodes[n].currentState.value;
    assert Shape(o.nodes[n]) == Shape(ns[n]) && Shape(o.nodes[cur]) == Shape(ns[cur]);
  }

  /** Resolving a transition whose target lies below `n`'s children, detected on the unchanged arena. */
  lemma ResolveRoute(ns: seq<Node>, n: NodeId, o: Outcome)
    requires Consistent(ns) && n < |ns| && ns[n].StateMachineState?
    requires o.nodes == ns && RefsInRange(ns, n)
    requires o.result.transition.Some? && Detected(ns, n, o) && o.result.level < 0
    requires -o.result.level < ns[o.result.transition.value.targetState].level
    ensures var t := o.result.transition.value;
      var down := Route(ns, t.targetState, -o.result.level);
      Resolve(ns, n, o) ==
        Outcome(UpdateResult(o.result.actions + [t.transitionActions] + down.actions, None, o.result.level), down.nodes)
  {
  }

  /** A transition of the current child fires: `n` resolves it without updating the child. */
  lemma DetectHere(ns: seq<Node>, n: NodeId, c: NodeId, env: Env, t: StateTransition)
    requires Consistent(ns) && n < |ns| && ns[n].StateMachineState? && ns[n].currentState == Some(c)
    requires c < |ns| && RefsInRange(ns, c) && Trigger(ns, c, env) == Some(t)
    ensures RefsInRange(ns, n) && Levelled(ns, n)
    ensures Update(ns, n, env) == Resolve(ns, n, Detect(ns, n, c, t))
  {
    assert RefsInRange(ns, n) && Levelled(ns, n);
  }

  /** The current child's transition leads to a sibling: exit, transition, entry, then `n`'s regular action. */
  lemma DetectLocal(ns: seq<Node>, n: NodeId, c: NodeId, env: Env, t: StateTransition)
    requires Consistent(ns) && n < |ns| && ns[n].StateMachineState? && ns[n].currentState == Some(c)
    requires c < |ns| && RefsInRange(ns, c) && Trigger(ns, c, env) == Some(t)
    requires ns[t.targetState].level == ns[c].level
    ensures Update(ns, n, env) ==
      Outcome(UpdateResult([ns[c].exitActions, t.transitionActions, ns[t.targetState].entryActions, ns[n].regActions], None, 0),
              SetCurrent(ns, n, Some(t.targetState)))
  {
    DetectHere(ns, n, c, env, t);
    ResolveLocal(ns, n, Detect(ns, n, c, t));
  }

  /** The current child's transition leads higher up: exit the child and hand the transition on. */
  lemma DetectExit(ns: seq<Node>, n: NodeId, c: NodeId, env: Env, t: StateTransition)
    requires Consistent(ns) && n < |ns| && ns[n].StateMachineState? && ns[n].currentState == Some(c)
    requires c < |ns| && RefsInRange(ns, c) && Trigger(ns, c, env) == Some(t)
    requires ns[t.targetState].level < ns[c].level
    ensures Update(ns, n, env) ==
      Outcome(UpdateResult([ns[c].exitActions], Some(t), ns[c].level - ns[t.targetState].level - 1), SetCurrent(ns, n, None))
  {
    DetectHere(ns, n, c, env, t);
    ResolveExit(ns, n, Detect(ns, n, c, t));
  }

  /** The current child's transition leads deeper: the transition's actions, then the descent to the target. */
  lemma DetectRoute(ns: seq<Node>, n: NodeId, c: NodeId, env: Env, t: StateTransition)
    requires Consistent(ns) && n < |ns| && ns[n].StateMachineState? && ns[n].currentState == Some(c)
    requires c < |ns| && RefsInRange(ns, c) && Trigger(ns, c, env) == Some(t)
    requires ns[t.targetState].level > ns[c].level
    ensures ns[t.targetState].level - ns[c].level < ns[t.targetState].level
    ensures var down := Route(ns, t.targetState, ns[t.targetState].level - ns[c].level);
      Update(ns, n, env) ==
        Outcome(UpdateResult([t.transitionActions] + down.actions, None, ns[c].level - ns[t.targetState].level), down.nodes)
  {
    DetectHere(ns, n, c, env, t);
    var o := Detect(ns, n, c, t);
    assert o.result.actions == [];
    ResolveRoute(ns, n, o);
  }

  /** Fired at depth 1, target at the same level: the head resolves it. */
  lemma HereResolved(ns: seq<Node>, chain: seq<NodeId>, t: StateTransition, u: Outcome)
    requires ChainIn(ns, chain) && 1 < |chain| && t.targetState < |ns| && Rise(ns, chain, 1, t) == 0
    requires u == Outcome(UpdateResult([ns[chain[1]].exitActions, t.transitionActions, ns[t.targetState].entryActions, ns[chain[0]].regActions], None, 0),
                          SetCurrent(ns, chain[0], Some(t.targetState)))
    ensures Resolved(ns, chain, 1, t, u)
  {
    assert chain[1..2] == [chain[1]] && chain[..1] == [chain[0]];
    ActionsCons(ns, chain[1], []);
    ActionsCons(ns, chain[0], []);
    assert [chain[1]] + [] == [chain[1]] && [chain[0]] + [] == [chain[0]];
    assert Exits(ns, chain[1..2]) == [ns[chain[1]].exitActions] && Regs(ns, chain[..1]) == [ns[chain[0]].regActions];
    assert Cleared(ns, chain[1..1]) == ns;
  }

  /** Fired at depth 1, target shallower: the head exits the child and passes the transition up. */
  lemma HerePassed(ns: seq<Node>, chain: seq<NodeId>, t: StateTransition, u: Outcome)
    requires ChainIn(ns, chain) && 1 < |chain| && t.targetState < |ns| && Rise(ns, chain, 1, t) > 0
    requires u == Outcome(UpdateResult([ns[chain[1]].exitActions], Some(t), Rise(ns, chain, 1, t) - 1), SetCurrent(ns, chain[0], None))
    ensures Passed(ns, chain, 1, t, u)
  {
    assert chain[1..2] == [chain[1]] && chain[..1] == [chain[0]];
    ActionsCons(ns, chain[1], []);
    ClearedStep(ns, chain[0], []);
    assert Cleared(ns, []) == ns;
  }

  /** Fired at depth 1, target deeper: the head routes down. */
  lemma HereRouted(ns: seq<Node>, chain: seq<NodeId>, t: StateTransition, down: Descent, u: Outcome)
    requires ChainIn(ns, chain) && 1 < |chain| && t.targetState < |ns| && Rise(ns, chain, 1, t) < 0
    requires u == Outcome(UpdateResult([t.transitionActions] + down.actions, None, Rise(ns, chain, 1, t)), down.nodes)
    ensures Routed(ns, chain, 1, t, down, u)
  {
    assert chain[..0] == [];
  }

  /** `n` is a composite whose current child `c` heads the rest of its active chain. */
  ghost predicate Above(ns: seq<Node>, n: NodeId, c: NodeId)
    requires Consistent(ns) && n < |ns|
  {
    && c < |ns| && ns[n].StateMachineState? && ns[n].currentState == Some(c)
    && ActiveChain(ns, n) == [n] + ActiveChain(ns, c)
  }

  /** A current child without a firing transition: `n` delegates and appends its regular action. */
  lemma DelegateQuiet(ns: seq<Node>, n: NodeId, c: NodeId, env: Env)
    requires Consistent(ns) && n < |ns| && ns[n].StateMachineState? && ns[n].currentState == Some(c)
    requires c < |ns| && RefsInRange(ns, c) && Trigger(ns, c, env).None?
    requires Update(ns, c, env).result.transition.None?
    ensures Update(ns, n, env) ==
      Outcome(Update(ns, c, env).result.(actions := Update(ns, c, env).result.actions + [ns[n].regActions]), Update(ns, c, env).nodes)
  {
    assert RefsInRange(ns, n) && Levelled(ns, n);
    Delegates(ns, n, env);
    ResolveQuiet(ns, n, Update(ns, c, env));
  }

  /** A transition handed up from the current child with no level left: `n` resolves it. */
  lemma DelegateLocal(ns: seq<Node>, n: NodeId, c: NodeId, env: Env, t: StateTransition)
    requires Consistent(ns) && n < |ns| && ns[n].StateMachineState? && ns[n].currentState == Some(c)
    requires c < |ns| && RefsInRange(ns, c) && Trigger(ns, c, env).None?
    requires Update(ns, c, env).result.transition == Some(t) && Update(ns, c, env).result.level == 0
    requires Update(ns, c, env).nodes[n] == ns[n]
    ensures t.targetState < |ns|
    ensures Update(ns, n, env) ==
      Outcome(UpdateResult(Update(ns, c, env).result.actions + [ns[c].exitActions, t.transitionActions, ns[t.targetState].entryActions, ns[n].regActions], None, 0),
              SetCurrent(Update(ns, c, env).nodes, n, Some(t.targetState)))
  {
    assert RefsInRange(ns, n) && Levelled(ns, n);
    var oc := Update(ns, c, env);
    Delegates(ns, n, env);
    assert RefsInRange(oc.nodes, n);
    ResolveLocal(ns, n, oc);
  }

  /** A transition handed up from the current child with levels left: `n` exits the child and hands it on. */
  lemma DelegateExit(ns: seq<Node>, n: NodeId, c: NodeId, env: Env, t: StateTransition)
    requires Consistent(ns) && n < |ns| && ns[n].StateMachineState? && ns[n].currentState == Some(c)
    requires c < |ns| && RefsInRange(ns, c) && Trigger(ns, c, env).None?
    requires Update(ns, c, env).result.transition == Some(t) && Update(ns, c, env).result.level > 0
    requires Update(ns, c, env).nodes[n] == ns[n]
    ensures Update(ns, n, env) ==
      Outcome(UpdateResult(Update(ns, c, env).result.actions + [ns[c].exitActions], Some(t), Update(ns, c, env).result.level - 1),
              SetCurrent(Update(ns, c, env).nodes, n, None))
  {
    assert RefsInRange(ns, n) && Levelled(ns, n);
    var oc := Update(ns, c, env);
    Delegates(ns, n, env);
    assert RefsInRange(oc.nodes, n);
    ResolveExit(ns, n, oc);
  }

  /** `n` does not lie on the active chain of its current child. */
  lemma NotBelow(ns: seq<Node>, n: NodeId, c: NodeId)
    requires Consistent(ns) && n < |ns| && ns[n].StateMachineState? && ns[n].currentState == Some(c) && c < |ns|
    ensures n !in ActiveChain(ns, c)
  {
    assert RefsInRange(ns, n) && Levelled(ns, n);
    var sub := ActiveChain(ns, c);
    assert forall k :: 0 <= k < |sub| ==> ns[sub[k]].level > ns[n].level;
  }

  /** What is not in a sequence is not in any prefix of it. */
  lemma NotInPrefix<T>(x: T, s: seq<T>, m: nat)
    requires x !in s && m <= |s|
    ensures x !in s[..m]
  {
  }

  /** Slicing a sequence with one element put in front. */
  lemma ConsSlices<T>(x: T, s: seq<T>, a: nat, b: nat)
    requires a <= b <= |s|
    ensures ([x] + s)[a + 1..b + 1] == s[a..b]
    ensures ([x] + s)[..a + 1] == [x] + s[..a]
  {
  }

  /** The regular and exit actions of a sequence with one node put in front. */
  lemma ActionsCons(ns: seq<Node>, n: NodeId, s: seq<NodeId>)
    requires n < |ns| && forall i :: 0 <= i < |s| ==> s[i] < |ns|
    ensures Regs(ns, [n] + s) == Regs(ns, s) + [ns[n].regActions]
    ensures Exits(ns, [n] + s) == Exits(ns, s) + [ns[n].exitActions]
  {
    assert ([n] + s)[1..] == s;
  }

  /** Routed strictly below the head `n`: `n` appends its regular action. */
  lemma RoutedStep(ns: seq<Node>, n: NodeId, sub: seq<NodeId>, j: nat, t: StateTransition, down: Descent, oc: Outcome, o: Outcome)
    requires n < |ns| && ChainIn(ns, sub) && ChainIn(ns, [n] + sub) && 2 <= j <= |sub| && t.targetState < |ns|
    requires Rise(ns, sub, j - 1, t) < 0 && Routed(ns, sub, j - 1, t, down, oc)
    requires o == Outcome(oc.result.(actions := oc.result.actions + [ns[n].regActions]), oc.nodes)
    ensures Rise(ns, [n] + sub, j, t) == Rise(ns, sub, j - 1, t)
    ensures Routed(ns, [n] + sub, j, t, down, o)
  {
    ConsSlices(n, sub, j - 2, j - 2);
    ActionsCons(ns, n, sub[..j - 2]);
  }

  /** Resolved strictly below the head `n`: `n` appends its regular action. */
  lemma ResolvedStep(ns: seq<Node>, n: NodeId, sub: seq<NodeId>, j: nat, t: StateTransition, oc: Outcome, o: Outcome)
    requires n < |ns| && ChainIn(ns, sub) && ChainIn(ns, [n] + sub) && 2 <= j <= |sub| && t.targetState < |ns|
    requires 0 <= Rise(ns, sub, j - 1, t) < j - 1 && Resolved(ns, sub, j - 1, t, oc)
    requires o == Outcome(oc.result.(actions := oc.result.actions + [ns[n].regActions]), oc.nodes)
    ensures Rise(ns, [n] + sub, j, t) == Rise(ns, sub, j - 1, t)
    ensures Resolved(ns, [n] + sub, j, t, o)
  {
    ResolvedRunStep(ns, n, sub, j, t);
    ResolvedArenaStep(ns, n, sub, j, t);
  }

  /** The actions of `ResolvedStep`: the same, with the head's regular action appended. */
  lemma ResolvedRunStep(ns: seq<Node>, n: NodeId, sub: seq<NodeId>, j: nat, t: StateTransition)
    requires n < |ns| && ChainIn(ns, sub) && ChainIn(ns, [n] + sub) && 2 <= j <= |sub| && t.targetState < |ns|
    requires 0 <= Rise(ns, sub, j - 1, t) < j - 1
    ensures Rise(ns, [n] + sub, j, t) == Rise(ns, sub, j - 1, t)
    ensures ResolvedRun(ns, [n] + sub, j, t) == ResolvedRun(ns, sub, j - 1, t) + [ns[n].regActions]
  {
    assert ([n] + sub)[j] == sub[j - 1];
    ResolvedActions(ns, n, sub, j, j - 1 - Rise(ns, sub, j - 1, t));
  }

  /** The arena of `ResolvedStep`: unchanged by the head. */
  lemma ResolvedArenaStep(ns: seq<Node>, n: NodeId, sub: seq<NodeId>, j: nat, t: StateTransition)
    requires n < |ns| && ChainIn(ns, sub) && ChainIn(ns, [n] + sub) && 2 <= j <= |sub| && t.targetState < |ns|
    requires 0 <= Rise(ns, sub, j - 1, t) < j - 1
    ensures Rise(ns, [n] + sub, j, t) == Rise(ns, sub, j - 1, t)
    ensures ResolvedArena(ns, [n] + sub, j, t) == ResolvedArena(ns, sub, j - 1, t)
  {
    assert ([n] + sub)[j] == sub[j - 1];
    var r := j - 1 - Rise(ns, sub, j - 1, t);
    assert ([n] + sub)[r] == sub[r - 1];
    ConsSlices(n, sub, r, j - 1);
  }

  /** The exits and regular actions of `ResolvedStep`, one depth further from the head. */
  lemma ResolvedActions(ns: seq<Node>, n: NodeId, sub: seq<NodeId>, j: nat, r: nat)
    requires n < |ns| && 1 <= r < j <= |sub| && forall i :: 0 <= i < |sub| ==> sub[i] < |ns|
    ensures Exits(ns, ([n] + sub)[r + 1..j + 1]) == Exits(ns, sub[r..j])
    ensures Regs(ns, ([n] + sub)[..r + 1]) == Regs(ns, sub[..r]) + [ns[n].regActions]
  {
    ConsSlices(n, sub, r, j);
    ActionsCons(ns, n, sub[..r]);
  }

  /** Handed up to the head `n` with no level left: exit the child, run the transition, enter the target. */
  lemma ArrivedStep(ns: seq<Node>, n: NodeId, sub: seq<NodeId>, j: nat, t: StateTransition, oc: Outcome, o: Outcome)
    requires n < |ns| && ChainIn(ns, sub) && ChainIn(ns, [n] + sub) && 2 <= j <= |sub| && t.targetState < |ns|
    requires ns[n].StateMachineState? && n !in sub[..j - 1]
    requires Rise(ns, sub, j - 1, t) == j - 1 && Passed(ns, sub, j - 1, t, oc)
    requires o == Outcome(UpdateResult(oc.result.actions + [ns[sub[0]].exitActions, t.transitionActions, ns[t.targetState].entryActions, ns[n].regActions], None, 0),
                          SetCurrent(oc.nodes, n, Some(t.targetState)))
    ensures Rise(ns, [n] + sub, j, t) == Rise(ns, sub, j - 1, t)
    ensures Resolved(ns, [n] + sub, j, t, o)
  {
    assert ([n] + sub)[j] == sub[j - 1];
    ArrivedActions(ns, n, sub, j);
    ArrivedNodes(ns, n, sub, j, t.targetState);
  }

  /** The actions of `ArrivedStep`, as slices of `[n] + sub`. */
  lemma ArrivedActions(ns: seq<Node>, n: NodeId, sub: seq<NodeId>, j: nat)
    requires n < |ns| && 2 <= j <= |sub| && forall i :: 0 <= i < |sub| ==> sub[i] < |ns|
    ensures Exits(ns, ([n] + sub)[1..j + 1]) == Exits(ns, sub[1..j]) + [ns[sub[0]].exitActions]
    ensures Regs(ns, ([n] + sub)[..1]) == [ns[n].regActions]
  {
    ConsShift(n, sub, j);
    var s := ([n] + sub)[1..j + 1];
    assert Exits(ns, s) == Exits(ns, s[1..]) + [ns[s[0]].exitActions];
    var h := ([n] + sub)[..1];
    assert Regs(ns, h) == Regs(ns, h[1..]) + [ns[h[0]].regActions];
  }

  /** The slices of `[x] + s` that `ArrivedActions` reads. */
  lemma ConsShift<T>(x: T, s: seq<T>, j: nat)
    requires 1 <= j <= |s|
    ensures ([x] + s)[1..j + 1][0] == s[0] && ([x] + s)[1..j + 1][1..] == s[1..j]
    ensures ([x] + s)[..1][0] == x && ([x] + s)[..1][1..] == []
  {
  }

  /** The arena of `ArrivedStep`, as a slice of `[n] + sub`. */
  lemma ArrivedNodes(ns: seq<Node>, n: NodeId, sub: seq<NodeId>, j: nat, x: NodeId)
    requires n < |ns| && ns[n].StateMachineState? && 2 <= j <= |sub| && n !in sub[..j - 1]
    ensures Cleared(ns, ([n] + sub)[1..j])[n := ns[n].(currentState := Some(x))] ==
            SetCurrent(Cleared(ns, sub[..j - 1]), n, Some(x))
  {
    ConsSlices(n, sub, 0, j - 1);
    assert sub[0..j - 1] == sub[..j - 1];
    ClearedStep(ns, n, sub[..j - 1]);
  }

  /** Handed up to the head `n` with levels left: exit the child and hand the transition on. */
  lemma PassedStep(ns: seq<Node>, n: NodeId, sub: seq<NodeId>, j: nat, t: StateTransition, oc: Outcome, o: Outcome)
    requires n < |ns| && ChainIn(ns, sub) && ChainIn(ns, [n] + sub) && 2 <= j <= |sub| && t.targetState < |ns|
    requires ns[n].StateMachineState? && n !in sub[..j - 1]
    requires Rise(ns, sub, j - 1, t) >= j && Passed(ns, sub, j - 1, t, oc)
    requires o == Outcome(UpdateResult(oc.result.actions + [ns[sub[0]].exitActions], Some(t), oc.result.level - 1), SetCurrent(oc.nodes, n, None))
    ensures Rise(ns, [n] + sub, j, t) == Rise(ns, sub, j - 1, t)
    ensures Passed(ns, [n] + sub, j, t, o)
  {
    assert ([n] + sub)[j] == sub[j - 1];
    ArrivedActions(ns, n, sub, j);
    PassedNodes(ns, n, sub, j);
  }

  /** The arena of `PassedStep`, as a prefix of `[n] + sub`. */
  lemma PassedNodes(ns: seq<Node>, n: NodeId, sub: seq<NodeId>, j: nat)
    requires n < |ns| && ns[n].StateMachineState? && 2 <= j <= |sub| && n !in sub[..j - 1]
    ensures Cleared(ns, ([n] + sub)[..j]) == SetCurrent(Cleared(ns, sub[..j - 1]), n, None)
  {
    ConsSlices(n, sub, j - 1, j - 1);
    ClearedStep(ns, n, sub[..j - 1]);
  }

  /** The first case of `Fires`: the transition belongs to `n`'s current child. */
  lemma FiresFirst(ns: seq<Node>, n: NodeId, c: NodeId, env: Env, t: StateTransition)
    requires Consistent(ns) && n < |ns| && Above(ns, n, c) && FiresAt(ns, n, env, 1, t)
    ensures t.targetState < |ns|
    ensures FiredResult(ns, n, 1, t, Update(ns, n, env))
  {
    var chain := ActiveChain(ns, n);
    ActiveChainIn(ns, n);
    assert chain[1] == c;
    assert ns[c].level == ns[n].level + 1;
    var d := Rise(ns, chain, 1, t);
    var u := Update(ns, n, env);
    if d == 0 {
      DetectLocal(ns, n, c, env, t);
      HereResolved(ns, chain, t, u);
    } else if d > 0 {
      DetectExit(ns, n, c, env, t);
      HerePassed(ns, chain, t, u);
    } else {
      DetectRoute(ns, n, c, env, t);
      HereRouted(ns, chain, t, Route(ns, t.targetState, -d), u);
    }
  }

  /** What the deeper cases of `Fires` need: `t` fires at depth `j - 1` below the current child `c`. */
  ghost predicate FiresBelow(ns: seq<Node>, n: NodeId, c: NodeId, env: Env, j: nat, t: StateTransition)
    requires Consistent(ns) && n < |ns|
  {
    && Above(ns, n, c) && RefsInRange(ns, c) && Trigger(ns, c, env).None?
    && 2 <= j < |ActiveChain(ns, n)| && t.targetState < |ns|
    && FiredResult(ns, c, j - 1, t, Update(ns, c, env))
  }

  /** Routed or resolved below the head `n`: `n` only appends its regular action. */
  lemma SettledStep(ns: seq<Node>, n: NodeId, sub: seq<NodeId>, j: nat, t: StateTransition, oc: Outcome, o: Outcome)
    requires Consistent(ns) && n < |ns| && ChainIn(ns, sub) && ChainIn(ns, [n] + sub) && 2 <= j <= |sub| && t.targetState < |ns|
    requires ns[sub[j - 1]].level > 0 && Rise(ns, sub, j - 1, t) < j - 1 && FiredOn(ns, sub, j - 1, t, oc)
    requires o == Outcome(oc.result.(actions := oc.result.actions + [ns[n].regActions]), oc.nodes)
    ensures FiredOn(ns, [n] + sub, j, t, o)
  {
    var d := Rise(ns, sub, j - 1, t);
    if d < 0 {
      RoutedStep(ns, n, sub, j, t, Route(ns, t.targetState, -d), oc, o);
    } else {
      ResolvedStep(ns, n, sub, j, t, oc, o);
    }
  }

  /** Routed or resolved below the current child: `n` only appends its regular action. */
  lemma FiresBelowSettled(ns: seq<Node>, n: NodeId, c: NodeId, env: Env, j: nat, t: StateTransition)
    requires Consistent(ns) && n < |ns| && FiresBelow(ns, n, c, env, j, t)
    requires Rise(ns, ActiveChain(ns, n), j, t) < j - 1
    ensures FiredResult(ns, n, j, t, Update(ns, n, env))
  {
    var sub := ActiveChain(ns, c);
    ActiveChainIn(ns, n);
    assert ActiveChain(ns, n)[j] == sub[j - 1];
    var oc := Update(ns, c, env);
    FiredChain(ns, c, j - 1, t, oc);
    FiredSettles(ns, sub, j - 1, t, oc);
    DelegateQuiet(ns, n, c, env);
    SettledStep(ns, n, sub, j, t, oc, Update(ns, n, env));
    FiredChain(ns, n, j, t, Update(ns, n, env));
  }

  /** Handed up to `n` with no level left: `n` resolves the transition. */
  lemma FiresBelowArrived(ns: seq<Node>, n: NodeId, c: NodeId, env: Env, j: nat, t: StateTransition)
    requires Consistent(ns) && n < |ns| && FiresBelow(ns, n, c, env, j, t)
    requires Rise(ns, ActiveChain(ns, n), j, t) == j - 1
    ensures FiredResult(ns, n, j, t, Update(ns, n, env))
  {
    var sub := ActiveChain(ns, c);
    ActiveChainIn(ns, n);
    assert ActiveChain(ns, n)[j] == sub[j - 1];
    var oc := Update(ns, c, env);
    FiredPassed(ns, c, j - 1, t, oc);
    NotBelow(ns, n, c);
    NotInPrefix(n, sub, j - 1);
    DelegateLocal(ns, n, c, env, t);
    ArrivedStep(ns, n, sub, j, t, oc, Update(ns, n, env));
    FiredResolved(ns, n, j, t, Update(ns, n, env));
  }

  /** Handed up to `n` with levels left: `n` exits its child and hands the transition on. */
  lemma FiresBelowPassed(ns: seq<Node>, n: NodeId, c: NodeId, env: Env, j: nat, t: StateTransition)
    requires Consistent(ns) && n < |ns| && FiresBelow(ns, n, c, env, j, t)
    requires Rise(ns, ActiveChain(ns, n), j, t) >= j
    ensures FiredResult(ns, n, j, t, Update(ns, n, env))
  {
    var sub := ActiveChain(ns, c);
    ActiveChainIn(ns, n);
    assert ActiveChain(ns, n)[j] == sub[j - 1];
    var oc := Update(ns, c, env);
    FiredPassed(ns, c, j - 1, t, oc);
    NotBelow(ns, n, c);
    NotInPrefix(n, sub, j - 1);
    DelegateExit(ns, n, c, env, t);
    PassedStep(ns, n, sub, j, t, oc, Update(ns, n, env));
    FiredPassed(ns, n, j, t, Update(ns, n, env));
  }

  /** Firing at depth `j` below `n` is firing at depth `j - 1` below its current child, which stays quiet. */
  lemma FiresAtChild(ns: seq<Node>, n: NodeId, c: NodeId, env: Env, j: nat, t: StateTransition)
    requires Consistent(ns) && n < |ns| && Above(ns, n, c) && FiresAt(ns, n, env, j, t) && j >= 2
    ensures RefsInRange(ns, c) && Trigger(ns, c, env).None?
    ensures FiresAt(ns, c, env, j - 1, t)
  {
    FiresOnTail(ns, n, ActiveChain(ns, c), env, j, t);
    assert ActiveChain(ns, c)[0] == c;
  }

  /**
   * A transition that fires at depth `j` of `n`'s active chain, with every
   * node between `n` and it quiet: `Update` on `n` gives `FiredResult`. The
   * transitions of the nodes under the owner are never looked at, and none
   * of those nodes is updated.
   */
  lemma {:induction false} Fires(ns: seq<Node>, n: NodeId, env: Env, j: nat, t: StateTransition)
    requires Consistent(ns) && n < |ns| && FiresAt(ns, n, env, j, t)
    ensures t.targetState < |ns|
    ensures FiredResult(ns, n, j, t, Update(ns, n, env))
    decreases j
  {
    var chain := ActiveChain(ns, n);
    ActiveChainIn(ns, n);
    assert ns[chain[0]].StateMachineState?;
    ChainGoesOn(ns, n);
    var c := ns[n].currentState.value;
    if j == 1 {
      FiresFirst(ns, n, c, env, t);
    } else {
      FiresAtChild(ns, n, c, env, j, t);
      Fires(ns, c, env, j - 1, t);
      var d := Rise(ns, chain, j, t);
      if d < j - 1 {
        FiresBelowSettled(ns, n, c, env, j, t);
      } else if d == j - 1 {
        FiresBelowArrived(ns, n, c, env, j, t);
      } else {
        FiresBelowPassed(ns, n, c, env, j, t);
      }
    }
  }

  // ---- routing down -----------------------------------------------------------

  /**
   * The actions of `p.UpdateDown(x, k)` read off the arena as it was before
   * the call: from the ancestor `k` levels above `p` down to `p`, each
   * composite's current child (if any) is exited and the next node on the
   * path to `x` is entered.
   */
  function DownActions(ns: seq<Node>, p: NodeId, x: NodeId, k: nat): seq<ActionHandle>
    requires Consistent(ns) && p < |ns| && x < |ns|
    requires ns[x].parent == Some(p) && k <= ns[p].level
    decreases k
  {
    assert RefsInRange(ns, x) && Levelled(ns, x) && RefsInRange(ns, p) && Levelled(ns, p);
    var up := if k > 0 then DownActions(ns, ns[p].parent.value, p, k - 1) else [];
    up + LocalExit(ns, p) + [ns[x].entryActions]
  }

  /** The node `m` parent links above `p`: the composite at that depth on the path from the root to `p`. */
  ghost function Ancestor(ns: seq<Node>, p: NodeId, m: nat): (a: NodeId)
    requires Consistent(ns) && p < |ns| && m <= ns[p].level
    ensures a < |ns| && ns[a].level == ns[p].level - m
    ensures m > 0 ==> ns[a].StateMachineState?
    decreases m
  {
    assert RefsInRange(ns, p) && Levelled(ns, p);
    if m == 0 then p else Ancestor(ns, ns[p].parent.value, m - 1)
  }

  /** The exit actions of `p`'s current child, if it has one. */
  function LocalExit(ns: seq<Node>, p: NodeId): seq<ActionHandle>
  {
    if p < |ns| && ns[p].StateMachineState? && ns[p].currentState.Some? && ns[p].currentState.value < |ns|
    then [ns[ns[p].currentState.value].exitActions]
    else []
  }

  /** The entry actions of `x`, read off an arena that holds it. */
  function EntryOf(ns: seq<Node>, x: NodeId): seq<ActionHandle>
  {
    if x < |ns| then [ns[x].entryActions] else []
  }

  /**
   * `UpdateDown` climbs exactly `k` parent links before it changes anything,
   * and each level changes only its own current-child pointer: `p` ends up
   * pointing at `x`, and no node at `p`'s depth or deeper other than `p`
   * changes.
   */
  lemma {:induction false} UpdateDownNodes(ns: seq<Node>, p: NodeId, x: NodeId, k: nat)
    requires Consistent(ns) && p < |ns| && x < |ns|
    requires ns[x].parent == Some(p) && k <= ns[p].level
    ensures ns[p].StateMachineState? && UpdateDown(ns, p, x, k).nodes[p] == ns[p].(currentState := Some(x))
    ensures forall i :: 0 <= i < |ns| && ns[i].level >= ns[p].level && i != p ==> UpdateDown(ns, p, x, k).nodes[i] == ns[i]
    decreases k
  {
    assert RefsInRange(ns, x) && Levelled(ns, x) && RefsInRange(ns, p) && Levelled(ns, p);
    var up := if k > 0 then UpdateDown(ns, ns[p].parent.value, p, k - 1) else Descent([], ns);
    if k > 0 {
      var pp := ns[p].parent.value;
      assert Levelled(ns, pp);
      UpdateDownNodes(ns, pp, p, k - 1);
    }
    assert UpdateDown(ns, p, x, k).nodes == SetCurrent(up.nodes, p, Some(x));
  }

  /**
   * Above `p`, `UpdateDown` changes the path it climbed and nothing else:
   * each of the `k` ancestors of `p` ends up pointing at the next node on
   * the path down to `x`, and every other node shallower than `p` keeps its
   * state. With `UpdateDownNodes` this gives the whole new arena.
   */
  lemma {:induction false} UpdateDownAbove(ns: seq<Node>, p: NodeId, x: NodeId, k: nat)
    requires Consistent(ns) && p < |ns| && x < |ns|
    requires ns[x].parent == Some(p) && k <= ns[p].level
    ensures forall m :: 1 <= m <= k ==>
      UpdateDown(ns, p, x, k).nodes[Ancestor(ns, p, m)] == ns[Ancestor(ns, p, m)].(currentState := Some(Ancestor(ns, p, m - 1)))
    ensures forall i ::
      0 <= i < |ns| && ns[i].level < ns[p].level && (ns[i].level < ns[p].level - k || i != Ancestor(ns, p, ns[p].level - ns[i].level))
      ==> UpdateDown(ns, p, x, k).nodes[i] == ns[i]
    decreases k
  {
    assert RefsInRange(ns, x) && Levelled(ns, x) && RefsInRange(ns, p) && Levelled(ns, p);
    var d := UpdateDown(ns, p, x, k).nodes;
    if k == 0 {
      assert d == SetCurrent(ns, p, Some(x));
    } else {
      var pp := ns[p].parent.value;
      assert Levelled(ns, pp);
      var up := UpdateDown(ns, pp, p, k - 1).nodes;
      assert d == SetCurrent(up, p, Some(x));
      UpdateDownNodes(ns, pp, p, k - 1);
      UpdateDownAbove(ns, pp, p, k - 1);
      AncestorsStep(ns, p, pp, x, k, up, d);
      OffPathStep(ns, p, pp, x, k, up, d);
    }
  }

  /** The ancestors in the step of `UpdateDownAbove`: repointing `p` at `x` after the climb from its parent `pp`. */
  lemma AncestorsStep(ns: seq<Node>, p: NodeId, pp: NodeId, x: NodeId, k: nat, up: seq<Node>, d: seq<Node>)
    requires Consistent(ns) && p < |ns| && ns[p].parent == Some(pp) && 1 <= k <= ns[p].level
    requires |up| == |ns| && up[p].StateMachineState? && d == up[p := up[p].(currentState := Some(x))]
    requires pp < |ns| && ns[pp].StateMachineState? && ns[pp].level == ns[p].level - 1 && up[pp] == ns[pp].(currentState := Some(p))
    requires forall m :: 1 <= m <= k - 1 ==>
      up[Ancestor(ns, pp, m)] == ns[Ancestor(ns, pp, m)].(currentState := Some(Ancestor(ns, pp, m - 1)))
    ensures forall m :: 1 <= m <= k ==>
      d[Ancestor(ns, p, m)] == ns[Ancestor(ns, p, m)].(currentState := Some(Ancestor(ns, p, m - 1)))
  {
    assert RefsInRange(ns, p) && Levelled(ns, p);
    forall m | 1 <= m <= k
      ensures d[Ancestor(ns, p, m)] == ns[Ancestor(ns, p, m)].(currentState := Some(Ancestor(ns, p, m - 1)))
    {
      assert Ancestor(ns, p, m) == Ancestor(ns, pp, m - 1);
      if m > 1 {
        assert Ancestor(ns, p, m - 1) == Ancestor(ns, pp, m - 2);
      }
    }
  }

  /** The nodes off the path in the step of `UpdateDownAbove`. */
  lemma OffPathStep(ns: seq<Node>, p: NodeId, pp: NodeId, x: NodeId, k: nat, up: seq<Node>, d: seq<Node>)
    requires Consistent(ns) && p < |ns| && ns[p].parent == Some(pp) && 1 <= k <= ns[p].level
    requires |up| == |ns| && up[p].StateMachineState? && d == up[p := up[p].(currentState := Some(x))]
    requires pp < |ns| && ns[pp].StateMachineState? && ns[pp].level == ns[p].level - 1
    requires forall i :: 0 <= i < |ns| && ns[i].level >= ns[pp].level && i != pp ==> up[i] == ns[i]
    requires forall i ::
      0 <= i < |ns| && ns[i].level < ns[pp].level && (ns[i].level < ns[pp].level - (k - 1) || i != Ancestor(ns, pp, ns[pp].level - ns[i].level))
      ==> up[i] == ns[i]
    ensures forall i ::
      0 <= i < |ns| && ns[i].level < ns[p].level && (ns[i].level < ns[p].level - k || i != Ancestor(ns, p, ns[p].level - ns[i].level))
      ==> d[i] == ns[i]
  {
    assert RefsInRange(ns, p) && Levelled(ns, p);
    forall i | 0 <= i < |ns| && ns[i].level < ns[p].level && (ns[i].level < ns[p].level - k || i != Ancestor(ns, p, ns[p].level - ns[i].level))
      ensures d[i] == ns[i]
    {
      OffPathOne(ns, p, pp, k, i, up);
    }
  }

  /** One node `i` of `OffPathStep`, with the facts about it from the climb above `p`. */
  lemma OffPathOne(ns: seq<Node>, p: NodeId, pp: NodeId, k: nat, i: NodeId, up: seq<Node>)
    requires Consistent(ns) && p < |ns| && ns[p].parent == Some(pp) && 1 <= k <= ns[p].level
    requires pp < |ns| && ns[pp].level == ns[p].level - 1 && |up| == |ns|
    requires i < |ns| && ns[i].level < ns[p].level
    requires ns[i].level < ns[p].level - k || i != Ancestor(ns, p, ns[p].level - ns[i].level)
    requires ns[i].level >= ns[pp].level && i != pp ==> up[i] == ns[i]
    requires ns[i].level < ns[pp].level && (ns[i].level < ns[pp].level - (k - 1) || i != Ancestor(ns, pp, ns[pp].level - ns[i].level))
      ==> up[i] == ns[i]
    ensures up[i] == ns[i]
  {
    assert RefsInRange(ns, p) && Levelled(ns, p) && RefsInRange(ns, i) && Levelled(ns, i);
    var m := ns[p].level - ns[i].level;
    assert Ancestor(ns, p, m) == Ancestor(ns, pp, m - 1);
  }

  /** One node at `x`'s depth or deeper, other than `p`, that `UpdateDown(ns, p, x, k)` leaves alone. */
  lemma DownKeeps(ns: seq<Node>, p: NodeId, x: NodeId, k: nat, i: NodeId)
    requires Consistent(ns) && p < |ns| && x < |ns|
    requires ns[x].parent == Some(p) && k <= ns[p].level
    requires i < |ns| && ns[i].level > ns[p].level
    ensures UpdateDown(ns, p, x, k).nodes[i] == ns[i]
  {
    UpdateDownNodes(ns, p, x, k);
  }

  /** One level of `UpdateDown`, with the arena left by the climb above it. */
  lemma DownUnfold(ns: seq<Node>, p: NodeId, x: NodeId, k: nat)
    requires Consistent(ns) && p < |ns| && x < |ns|
    requires ns[x].parent == Some(p) && k <= ns[p].level
    ensures RefsInRange(ns, p) && Levelled(ns, p) && ns[p].StateMachineState?
    ensures k > 0 ==> ns[p].parent.Some? && ns[ns[p].parent.value].level == ns[p].level - 1
    ensures var up := if k > 0 then UpdateDown(ns, ns[p].parent.value, p, k - 1) else Descent([], ns);
      UpdateDown(ns, p, x, k).actions == up.actions + LocalExit(up.nodes, p) + EntryOf(up.nodes, x)
  {
    assert RefsInRange(ns, x) && Levelled(ns, x) && RefsInRange(ns, p) && Levelled(ns, p);
    var up := if k > 0 then UpdateDown(ns, ns[p].parent.value, p, k - 1) else Descent([], ns);
    assert Shape(up.nodes[p]) == Shape(ns[p]) && RefsInRange(up.nodes, p);
    SetCurrentKeepsConsistent(up.nodes, p, Some(x));
    assert SetCurrent(up.nodes, p, Some(x))[x] == up.nodes[x];
  }

  /** One level of `UpdateDown` read off the arena as it was before the call. */
  lemma DownStep(ns: seq<Node>, p: NodeId, x: NodeId, k: nat)
    requires Consistent(ns) && p < |ns| && x < |ns|
    requires ns[x].parent == Some(p) && k <= ns[p].level
    ensures RefsInRange(ns, p) && Levelled(ns, p)
    ensures k > 0 ==> ns[p].parent.Some? && ns[ns[p].parent.value].level == ns[p].level - 1
    ensures k > 0 ==>
      UpdateDown(ns, p, x, k).actions ==
      UpdateDown(ns, ns[p].parent.value, p, k - 1).actions + LocalExit(ns, p) + [ns[x].entryActions]
    ensures k == 0 ==> UpdateDown(ns, p, x, k).actions == LocalExit(ns, p) + [ns[x].entryActions]
  {
    DownUnfold(ns, p, x, k);
    assert RefsInRange(ns, x) && Levelled(ns, x);
    if k > 0 {
      var pp := ns[p].parent.value;
      DownKeeps(ns, pp, p, k - 1, x);
      DownKeepsExit(ns, pp, p, k - 1);
    }
  }

  /** The climb above `x` leaves `x`'s current child, and so the exit it emits next, as it was. */
  lemma DownKeepsExit(ns: seq<Node>, p: NodeId, x: NodeId, k: nat)
    requires Consistent(ns) && p < |ns| && x < |ns|
    requires ns[x].parent == Some(p) && k <= ns[p].level
    ensures LocalExit(UpdateDown(ns, p, x, k).nodes, x) == LocalExit(ns, x)
  {
    assert Levelled(ns, x);
    DownKeeps(ns, p, x, k, x);
    if ns[x].StateMachineState? && ns[x].currentState.Some? && ns[x].currentState.value < |ns| {
      var cur := ns[x].currentState.value;
      assert Levelled(ns, cur);
      DownKeeps(ns, p, x, k, cur);
    }
  }

  /** So every exit `UpdateDown` emits is of a child that was current before the call. */
  lemma {:induction false} UpdateDownActions(ns: seq<Node>, p: NodeId, x: NodeId, k: nat)
    requires Consistent(ns) && p < |ns| && x < |ns|
    requires ns[x].parent == Some(p) && k <= ns[p].level
    ensures UpdateDown(ns, p, x, k).actions == DownActions(ns, p, x, k)
    decreases k
  {
    DownStep(ns, p, x, k);
    if k > 0 {
      UpdateDownActions(ns, ns[p].parent.value, p, k - 1);
    }
  }
}
