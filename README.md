# Tick-driven state machines, modelled in Dafny

This project models the core of a small state-machine library for a game
engine. A host calls `GetActions()` once per frame. The machine then checks
its transitions and returns an ordered list of action handles (`UnityEvent`
references) for the host to invoke. The engine itself never invokes a handle.
The library has three parts, and each has its own Dafny module.

- **The condition algebra** (`Conditions`, `EventConditions`):
  - `IntComparerCondition` compares a freshly sampled integer with a stored
    value under one of six operators.
  - `AndCondition` and `OrCondition` short-circuit over a list.
  - `NotCondition` negates.
  - `EventCondition` is a resettable latch.
  - A condition is a datatype evaluated against an `Env`. The `Env` says what
    each value delegate returns, whether each latch is set and what each
    condition delegate answers. An evaluation also records the external calls
    it made, in order (`Probe`). This makes short-circuiting and "sampled
    exactly once" statable.
  - The latch itself is a class with an `isTriggered` field.
- **The flat state machine** (`FlatMachine`) is a class with the source's
  fields. It has:
  - any-state transitions, checked before the current state's own;
  - a transition with no target, which means "exit the machine";
  - machine and state entry actions on the first tick.
- **The hierarchical engine** (`Hierarchy`, `HierarchyProperties`,
  `HierarchicalEngine`):
  - The state objects live in an arena `seq<Node>`, and node ids index it.
    `Node` is a leaf (`EndState`) or a composite (`StateMachineState`). It
    holds the fields of `StateBase`: level, parent, the three action handles
    and the transitions. A composite also holds its children, an initial child
    and a nullable current child.
  - `Hierarchy.Update`, `Hierarchy.Resolve` and `Hierarchy.UpdateDown` are pure
    functions giving one call's result together with the arena after it.
  - The class `HierarchicalEngine.HierarchicalStateMachine` runs the same
    algorithm imperatively on its `nodes` field and is proved equal to those
    functions. Its construction methods state their whole new state.
  - `HierarchyProperties` states what one tick does in terms of the **active
    chain**, which is what `GetStates()` returns: the node and, through
    current-child pointers, every active node below it.
    - A quiet tick returns the chain's regular actions, deepest first, and
      changes nothing.
    - A composite that has not been entered enters exactly one level per tick.
    - A transition that fires at depth `j` of the chain is resolved by the
      ancestor whose children share its target's level. The nodes between
      are exited innermost first and lose their current child.
    - A transition to a deeper target emits its action before `UpdateDown`'s
      exits and entries, and the routing ancestor adds no regular action.
    - `UpdateDown` climbs exactly `k` parents, then exits and enters one level
      at a time on the way down.
  - `Scenarios` proves what the functions give on a five-node tree and pins down three
    behaviours of the source:
    - An outer transition pre-empts an inner one. The inner leaf is not
      exited, and its parent keeps a stale current-child pointer.
    - A later routing into that parent exits the stale child.
    - Routing to a target beneath the transition's source exits and re-enters
      the source.
  - Two more behaviours of the source follow from the same functions:
    - A level-0 transition only compares depths. A transition to a cousin at
      the same depth makes the composite point at a node whose parent is
      another composite (`Hierarchy.Resolve`, level-0 branch).
    - A transition to a deeper target in another subtree routes through the
      target's own ancestors. `UpdateDown` climbs from the target's parent to
      the ancestor at the routing composite's depth, which is then not the
      routing composite. That ancestor's current child is exited and nodes
      off the active chain are entered, while the node the transition left
      is neither exited nor unpointed (`HierarchyProperties.UpdateDownActions`,
      `HierarchyProperties.UpdateDownNodes` and `HierarchyProperties.UpdateDownAbove`
      state which nodes change).

Where the source dereferences null or indexes out of range, the model puts a
precondition in place of the exception. The one exception is the null target
of a flat transition, which the source handles and the model keeps as
`Option`.

## Model

| member | source | states |
|---|---|---|
| Conditions.Code | StateMachine/Conditions/ComparerCondition.cs:2-10 | each of the six operators has its own enum value in 0..5, and that value decodes back to it |
| Conditions.OperatorOf | StateMachine/Conditions/ComparerCondition.cs:2-10 | a raw enum value names an operator exactly when it lies in 0..5 |
| Conditions.OperatorRoundTrip | StateMachine/Conditions/ComparerCondition.cs:2-10 | encoding the operator a defined value decodes to gives back that value |
| Conditions.IntComparerCondition | StateMachine/Conditions/IntComparerCondition.cs:7-9 | the int comparer stores value, value delegate and operator unchanged, as the base constructor does (ComparerCondition.cs:26-31); the delegate is not invoked |
| Conditions.ComparerSemantics | StateMachine/Conditions/IntComparerCondition.cs:11-24 | for each of EQ, LT, GT, LTE, GTE and NEQ the answer is `sample op staticValue`, with the sample on the left and the delegate sampled exactly once; an operator value outside the six gives false and samples nothing |
| Conditions.ComplementaryOperators | StateMachine/Conditions/IntComparerCondition.cs:16-21 | EQ/NEQ, LT/GTE and GT/LTE give opposite answers for the same sample |
| Conditions.AndIsConjunction | StateMachine/Conditions/AndCondition.cs:16-26 | AND is true iff every sub-condition is true, so it is true over an empty list |
| Conditions.AndStopsAtFirstFalse | StateMachine/Conditions/AndCondition.cs:18-25 | AND stops at the first false sub-condition: it answers false, and only the sub-conditions up to that one make external calls |
| Conditions.AndTestsAllWhenTrue | StateMachine/Conditions/AndCondition.cs:18-25 | when every sub-condition holds, AND tests all of them in order and answers true |
| Conditions.OrIsDisjunction | StateMachine/Conditions/OrCondition.cs:10-21 | OR is true iff some sub-condition is true, so it is false over an empty list |
| Conditions.OrStopsAtFirstTrue | StateMachine/Conditions/OrCondition.cs:14-17 | OR stops at the first true sub-condition: it answers true, and later ones make no external calls |
| Conditions.OrTestsAllWhenFalse | StateMachine/Conditions/OrCondition.cs:12-20 | when no sub-condition holds, OR tests all of them in order and answers false |
| Conditions.Evaluate | StateMachine/Conditions/IntComparerCondition.cs:11-24 | testing a condition (each `TestCondition` override, also AndCondition.cs:16-26, OrCondition.cs:10-21, NotCondition.cs:13-16 and DelegateCondition.cs:17-20) calls only the delegates the condition names, and a latch calls none; what it answers is given by ComparerSemantics, AndIsConjunction, OrIsDisjunction and NotNegates |
| Conditions.EvaluateAll | StateMachine/Conditions/AndCondition.cs:18-25 | the AND loop calls only delegates its sub-conditions name; its answer and the calls it makes are given by AndIsConjunction, AndStopsAtFirstFalse and AndTestsAllWhenTrue |
| Conditions.EvaluateAny | StateMachine/Conditions/OrCondition.cs:12-20 | the OR loop calls only delegates its sub-conditions name; its answer and the calls it makes are given by OrIsDisjunction, OrStopsAtFirstTrue and OrTestsAllWhenFalse |
| Conditions.NotNegates | StateMachine/Conditions/NotCondition.cs:13-16 | NOT negates its sub-condition and evaluates it exactly once; NOT of NOT gives back the sub-condition's evaluation |
| Conditions.FirstIndex | HierarchicalStateMachine/StateMachineState.cs:111-121 | the transition scan stops at the first transition whose condition holds: every earlier one is false, and the index is the list length when none holds |
| Conditions.FirstIndexIsUnique | HierarchicalStateMachine/StateMachineState.cs:111-121 | any index with the first-match property is the scan's result |
| Conditions.ScanTransitions | StateMachine/StateMachine.cs:103-110 | the `foreach`/`break` scan returns the first triggered transition, and none exactly when no condition holds |
| Conditions.FirstTriggeredConcat | StateMachine/StateMachine.cs:103-123 | scanning the any-state list and then the current state's list gives the first triggered transition of their concatenation |
| EventConditions.EventCondition.constructor | StateMachine/Conditions/EventCondition.cs:12-17 | a new latch stores its event and is untriggered |
| EventConditions.EventCondition.TestCondition | StateMachine/Conditions/EventCondition.cs:19-22 | testing returns the flag and does not clear it |
| EventConditions.EventCondition.Reset | StateMachine/Conditions/EventCondition.cs:24-27 | after a reset the latch is untriggered |
| EventConditions.EventCondition.SetTrigger | StateMachine/Conditions/EventCondition.cs:29-32 | after the event fires the latch is triggered |
| EventConditions.EventCondition.Fire | StateMachine/Conditions/EventCondition.cs:29-32 | firing n times sets the flag iff it was already set or n >= 1, so firing many times equals firing once |
| EventConditions.LatchLifecycle | StateMachine/Conditions/EventCondition.cs:12-32 | a client's view of one latch: false when new, true after the event fires one or more times and on a second test, false after a reset, true after the next firing |
| FlatMachine.State.constructor | StateMachine/State.cs:30-37 | stores the name and the three handles (defaulting to null) and starts with no transitions |
| FlatMachine.State.AddTransition | StateMachine/State.cs:25-28 | appends the transition after the existing ones, in order |
| FlatMachine.StateMachine.constructor | StateMachine/StateMachine.cs:23-29 | empty state and any-state transition lists, no initial or current state, machine handles stored |
| FlatMachine.StateMachine.SetInitialState | StateMachine/StateMachine.cs:35-38 | selects `states[i]` as the initial state |
| FlatMachine.StateMachine.AddState | StateMachine/StateMachine.cs:44-47 | appends the state to the list |
| FlatMachine.StateMachine.AddAnyStateTransition | StateMachine/StateMachine.cs:55-64 | appends one transition to `destState` per occurrence of `destState` in the state list, and none when it is absent |
| FlatMachine.StateMachine.ExitStateMachine | StateMachine/StateMachine.cs:71-83 | returns the current state's exit handle if there is a current state, then the machine's exit handle; afterwards no state is current |
| FlatMachine.StateMachine.GetActions | StateMachine/StateMachine.cs:89-156 | entering returns `[machine entry, initial entry]`; otherwise the first triggered transition (any-state first) either exits the machine (`[current exit, machine exit]`, no current state) or moves to its target (`[current exit, transition, target entry]`); with none, `[current reg]` and no state change |
| Hierarchy.GetLevel | HierarchicalStateMachine/StateTransition.cs:33-36 | start level equals target level plus the result; it is 0, positive or negative iff the target is at the same depth, shallower or deeper |
| Hierarchy.Trigger | HierarchicalStateMachine/StateMachineState.cs:111-121 | a transition found by the current child's scan is one of that child's own transitions |
| Hierarchy.ActiveChain | HierarchicalStateMachine/StateMachineState.cs:54-67 | `GetStates()` starts at the node, each entry is the current child of the one before and one level deeper, and it ends at a leaf or at a composite without a current child |
| Hierarchy.UpdateDown | HierarchicalStateMachine/StateMachineState.cs:191-209 | routing down keeps the tree consistent and changes only current-child pointers |
| Hierarchy.Detect | HierarchicalStateMachine/StateMachineState.cs:124-130 | a transition found on the current child is reported with no actions and the arena unchanged, and its level is how far the target lies above that child |
| Hierarchy.Resolve | HierarchicalStateMachine/StateMachineState.cs:138-179 | a composite hands a transition up only when it arrives with at least one level still to climb; it leaves with that level decremented by one and the composite's own current child cleared |
| Hierarchy.Update | HierarchicalStateMachine/StateMachineState.cs:100-182 | a tick keeps the tree consistent and changes only current-child pointers; a transition handed up has its target exactly `level` levels above the node, and nothing shallower than the node has changed |
| HierarchyProperties.LeafUpdate | HierarchicalStateMachine/StateBase.cs:51-59 | a leaf's tick is exactly `[regActions]`, with no transition, level 0 and nothing changed |
| HierarchyProperties.EnterInitial | HierarchicalStateMachine/StateMachineState.cs:104-109 | a composite with no current child makes its initial child current and returns exactly that child's entry handle, with no transition checked |
| HierarchyProperties.Delegates | HierarchicalStateMachine/StateMachineState.cs:133-136 | when none of the current child's transitions fires, the child is updated and its result resolved |
| HierarchyProperties.ResolveQuiet | HierarchicalStateMachine/StateMachineState.cs:175-179 | with no transition pending, the composite appends its regular handle after the child's actions |
| HierarchyProperties.ResolveLocal | HierarchicalStateMachine/StateMachineState.cs:142-152 | level 0: appends current exit, transition, target entry and its own regular handle, points at the target and clears the transition |
| HierarchyProperties.ResolveExit | HierarchicalStateMachine/StateMachineState.cs:155-160 | level > 0: appends only the current child's exit, clears the current child, decrements the level by one and keeps the transition |
| HierarchyProperties.ResolveRoute | HierarchicalStateMachine/StateMachineState.cs:164-172 | level < 0: appends the transition handle and then `target.Parent.UpdateDown(target, -level)`'s actions, adds no regular handle and clears the transition |
| HierarchyProperties.DetectHere | HierarchicalStateMachine/StateMachineState.cs:111-136 | when the current child's transition fires, the child is not updated: the transition with its level difference goes straight to resolution |
| HierarchyProperties.DetectLocal | HierarchicalStateMachine/StateMachineState.cs:124-152 | a sibling transition of the current child gives `[exit, transition, entry, reg]` and repoints the composite |
| HierarchyProperties.DetectExit | HierarchicalStateMachine/StateMachineState.cs:124-160 | a transition to a shallower target exits the child, clears it and passes the transition up one level nearer |
| HierarchyProperties.DetectRoute | HierarchicalStateMachine/StateMachineState.cs:124-172 | a transition to a deeper target emits the transition handle and then the routing-down actions, without exiting the child that fired |
| HierarchyProperties.DelegateQuiet | HierarchicalStateMachine/StateMachineState.cs:133-179 | a quiet child result gains the composite's regular handle and nothing else |
| HierarchyProperties.DelegateLocal | HierarchicalStateMachine/StateMachineState.cs:133-152 | a level-0 transition returned by the child is resolved here, after the child's actions |
| HierarchyProperties.DelegateExit | HierarchicalStateMachine/StateMachineState.cs:133-160 | a level > 0 transition returned by the child adds the child's exit and goes up with the level decremented |
| HierarchyProperties.QuietTick | HierarchicalStateMachine/StateMachineState.cs:100-182 | when nothing on the active chain fires, a tick returns the chain's regular handles deepest first and changes nothing, or, if the chain ends at a composite not yet entered, enters its initial child first |
| HierarchyProperties.SteadyTickRepeats | HierarchicalStateMachine/StateMachineState.cs:100-182 | a quiet tick whose chain ends at a leaf changes nothing, so the next quiet tick returns the same actions |
| HierarchyProperties.EnterExtendsChain | HierarchicalStateMachine/StateMachineState.cs:104-109 | entering the tip's initial child extends the active chain by exactly that child's own chain |
| HierarchyProperties.EntersOneLevel | HierarchicalStateMachine/StateMachineState.cs:104-109 | a composite enters only one level per tick: after a quiet tick the active chain has grown by the initial child's chain only |
| HierarchyProperties.ChainStops | HierarchicalStateMachine/EndState.cs:20-23 | `GetStates()` of a leaf, or of a composite without a current child, is exactly `[this]` |
| HierarchyProperties.ChainGoesOn | HierarchicalStateMachine/StateMachineState.cs:54-67 | `GetStates()` of a composite with a current child is `[this]` followed by the child's `GetStates()` |
| HierarchyProperties.FiredSettles | HierarchicalStateMachine/StateMachineState.cs:139-172 | a transition whose target is not above the node being updated is consumed below it and not handed further up |
| HierarchyProperties.Fires | HierarchicalStateMachine/StateMachineState.cs:100-182 | when the first transition to fire on the active chain belongs to the node at depth j, with its target `Rise` levels above that node, the tick takes one of three outcomes, and nodes below depth j are not ticked. If `0 <= Rise < j`, the composite at depth r = j-1-Rise resolves it: depths j..r+1 are exited innermost first, then come the transition and target entry handles and the regular handles of depths r..0. Depths r+1..j-1 lose their current child, the firing node at depth j keeps its own, and depth r points at the target. If `Rise >= j`, depths j..1 are exited and depths 0..j-1 lose their current child. No transition or entry handle is emitted, and the transition is handed up with Rise-j levels left. If `Rise < 0`, the composite at depth j-1 emits the transition handle and then `UpdateDown`'s actions into the target, without exiting the firing node, then the regular handles of depths j-2..0; the negative level is kept |
| HierarchyProperties.UpdateDownNodes | HierarchicalStateMachine/StateMachineState.cs:191-209 | `p.UpdateDown(x, k)` points `p` at `x` and changes no other node at `p`'s depth or deeper |
| HierarchyProperties.UpdateDownAbove | HierarchicalStateMachine/StateMachineState.cs:191-209 | after `p.UpdateDown(x, k)` each of the k ancestors of `p` points at the next node on the path down to `x`, and every other node shallower than `p` is unchanged; with `UpdateDownNodes` this gives the whole new arena |
| HierarchyProperties.UpdateDownActions | HierarchicalStateMachine/StateMachineState.cs:191-209 | the actions of `UpdateDown` are, from the ancestor k levels above down to `p`, each composite's current-child exit (if any) followed by the entry of the next node on the path |
| Scenarios.QuietScenario | HierarchicalStateMachine/StateMachineState.cs:175-179 | a quiet tick on root/A/A1 returns the regular handles of A1, A and the root, in that order |
| Scenarios.SiblingScenario | HierarchicalStateMachine/StateMachineState.cs:142-152 | a sibling transition under A exits A1, emits the transition handle, enters A2, then adds A's and the root's regular handles |
| Scenarios.PreemptScenario | HierarchicalStateMachine/StateMachineState.cs:111-160 | when A's own transition and A1's both hold, A's wins: A is exited without exiting A1, and A keeps A1 as a stale current child |
| Scenarios.RouteDownScenario | HierarchicalStateMachine/StateMachineState.cs:164-172 | routing from B to the deeper A2 emits the transition handle, exits B, enters A, exits A's stale A1 and enters A2, with level -1 kept in the result |
| Scenarios.BeneathSourceScenario | HierarchicalStateMachine/StateMachineState.cs:191-209 | a transition from A to its own child A2 exits and re-enters A before exiting A1 and entering A2 |
| HierarchicalEngine.AddStateKeepsWellFormed | HierarchicalStateMachine/StateMachineState.cs:37-48 | adding a child keeps every reference in the arena valid |
| HierarchicalEngine.TopDownTreeTicks | HierarchicalStateMachine/StateMachineState.cs:37-48 | the tree R { A { A1 }, B } with each composite attached before its children are added is consistent, and its first tick returns only A's entry handle |
| HierarchicalEngine.BuildTopDown | HierarchicalStateMachine/StateMachineState.cs:37-48 | building that tree through the class's construction methods, top-down, gives a consistent arena, and the driver's first tick enters A and nothing else |
| HierarchicalEngine.BuildBottomUp | HierarchicalStateMachine/StateMachineState.cs:39-41 | building the same tree children first gives an inconsistent arena, because `AddState` sets only the added child's parent and level, not those of its descendants |
| HierarchicalEngine.HierarchicalStateMachine.constructor | HierarchicalStateMachine/HierarchicalStateMachine.cs:14-17 | a new driver has no base state |
| HierarchicalEngine.HierarchicalStateMachine.SetBaseState | HierarchicalStateMachine/HierarchicalStateMachine.cs:12 | the `BaseState` setter replaces the root and nothing else |
| HierarchicalEngine.HierarchicalStateMachine.NewStateMachineState | HierarchicalStateMachine/StateMachineState.cs:19-31 | a new composite stores name and handles, at level 0 with no parent, no children, transitions, initial or current child |
| HierarchicalEngine.HierarchicalStateMachine.NewEndState | HierarchicalStateMachine/EndState.cs:9-18 | a new leaf stores name and handles, at level 0 with no parent and no transitions |
| HierarchicalEngine.HierarchicalStateMachine.SetLevel | HierarchicalStateMachine/StateBase.cs:25 | the `Level` setter changes only that node's level |
| HierarchicalEngine.HierarchicalStateMachine.SetParent | HierarchicalStateMachine/StateBase.cs:27 | the `Parent` setter changes only that node's parent |
| HierarchicalEngine.HierarchicalStateMachine.AddTransition | HierarchicalStateMachine/StateBase.cs:36-39 | appends the transition after the node's existing ones and changes nothing else |
| HierarchicalEngine.HierarchicalStateMachine.AddState | HierarchicalStateMachine/StateMachineState.cs:37-48 | appends the child, sets its parent to the composite and its level to one below, and makes the first child added the initial one |
| HierarchicalEngine.HierarchicalStateMachine.SetInitialStateIndex | HierarchicalStateMachine/StateMachineState.cs:73-76 | selects child `index` when `index < count`, and otherwise changes nothing |
| HierarchicalEngine.HierarchicalStateMachine.SetInitialState | HierarchicalStateMachine/StateMachineState.cs:83-94 | selects the state if it is a child; otherwise appends it without setting its parent or level and selects it |
| HierarchicalEngine.HierarchicalStateMachine.UpdateDown | HierarchicalStateMachine/StateMachineState.cs:191-209 | the recursive method on fields returns `Hierarchy.UpdateDown`'s actions and leaves its arena |
| HierarchicalEngine.HierarchicalStateMachine.Update | HierarchicalStateMachine/StateMachineState.cs:100-182 | the recursive method on fields returns `Hierarchy.Update`'s result and leaves its arena |
| HierarchicalEngine.HierarchicalStateMachine.Resolve | HierarchicalStateMachine/StateMachineState.cs:138-179 | acting on the child's result in place equals `Hierarchy.Resolve` |
| HierarchicalEngine.HierarchicalStateMachine.TakeHere | HierarchicalStateMachine/StateMachineState.cs:142-152 | the level-0 branch in place equals `Hierarchy.Resolve` |
| HierarchicalEngine.HierarchicalStateMachine.PassUp | HierarchicalStateMachine/StateMachineState.cs:155-160 | the level > 0 branch in place equals `Hierarchy.Resolve` |
| HierarchicalEngine.HierarchicalStateMachine.RouteDown | HierarchicalStateMachine/StateMachineState.cs:164-172 | the level < 0 branch in place equals `Hierarchy.Resolve` |
| HierarchicalEngine.HierarchicalStateMachine.GetActions | HierarchicalStateMachine/HierarchicalStateMachine.cs:23-31 | without a base state it returns no actions and changes nothing; otherwise it returns exactly the root tick's actions and discards its transition and level |

## Left out

- Invoking action handles, `UnityEvent.AddListener` (EventCondition.cs:15) and the `MonoBehaviour` host in StateMachine/StateMachineAgent.cs are host glue. Handles are opaque tokens, and "the event fires" is a call to `SetTrigger`.
- The latch class is not connected to the `Event(latch)` condition. The condition reads the latch's flag from `Env`, so a tick sees one snapshot of all delegates and latches.
- `DelegateCondition` is an oracle `Delegate(k)` whose answer comes from `Env`; the external function is not modelled.
- The generic `ComparerCondition<T>` is modelled only at `int`, the one instantiation in the library. The abstract `Condition` base class is not part of this model beyond `TestCondition`.
- `IStateMachineState`, `UpdateResult` and `IResetCondition` declare shapes only; they are the `Node` and `UpdateResult` datatypes.
- Getters and the transition constructors and accessors (StateBase.cs:25-31, State.cs:17-21, both `StateTransition` classes) are datatype fields, and `IsTriggered()` is `Test(Guard(t), env)`. They have no contract of their own.
- `StateMachine/State.cs:23` declares `StateName` without a type; the model stores the name as a field.
- `OrCondition`'s list is a public field with no constructor, so it can be null and `TestCondition` would then throw. The model's `Or` always holds a list.
- Null dereferences and bad indices are preconditions, not exceptions: a composite with no initial child (StateMachineState.cs:107-108), a null root parent in `UpdateDown` (line 197), a flat `SetInitialState` index out of range (StateMachine.cs:37), a negative index in the hierarchical `SetInitialState(int)` (line 75), and a flat first tick with no initial state (StateMachine.cs:96-100).
- EventConditions.EventCondition.constructor: requires a non-null event, because the source calls `AddListener` on it.
- Hierarchy.Update, Hierarchy.Resolve and the class's `Update`: require a consistent tree, over every node of the arena. The references must be in range, levels must equal depth, each composite must have an initial child, and the current child must be one level down. Construction through `AddState` gives this only when each composite is attached to its parent before its own children are added and every composite gets at least one child (`BuildTopDown`). Adding children first leaves the deeper levels wrong (`BuildBottomUp`), and `SetLevel`, `SetParent` and `SetInitialState(state)` can also break it. The source would then misroute or throw.
- HierarchicalEngine.HierarchicalStateMachine.GetActions: requires that same consistency of every node created through the driver, whether or not it is attached below the base state. An unattached composite with no child makes the arena inconsistent, which blocks a tick that the source would perform on `BaseState`'s tree alone.
- Hierarchy.UpdateDown: requires `p` to be the target's parent and at most `level(p)` levels to climb, which is how `Update` calls it.
- Object identity and aliasing are ids into one arena, and a node shared by two parents is a single arena entry. The flat machine's states are class references compared by identity.
- The level left in a result after routing down (negative) is kept, as the source keeps it. Only the driver discards it.
