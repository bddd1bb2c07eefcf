/**
 * The single-level state machine: `State` objects with their outgoing
 * transitions, and a `StateMachine` driver that checks the any-state
 * transitions before the current state's and treats a transition without a
 * target as leaving the machine.
 */
module FlatMachine {
  import opened Wrappers
  import opened Actions
  import opened Conditions

  /** A transition of the flat machine; `None` as target means "exit the machine". */
  datatype StateTransition = StateTransition(targetState: Option<State>, transitionActions: ActionHandle, condition: Condition)

  /** The guard of a transition; `IsTriggered()` is `Test(Guard(t), env)`. */
  function Guard(t: StateTransition): Condition
  {
    t.condition
  }

  /** A state: its name, three action handles and its outgoing transitions in scan order. */
  class State {
    const stateName: string
    const entryActions: ActionHandle
    const regActions: ActionHandle
    const exitActions: ActionHandle
    var stateTransitions: seq<StateTransition>

    /** Omitted action handles are null; a new state has no transitions. */
    constructor (stateName: string, entryActions: ActionHandle := Null, regActions: ActionHandle := Null, exitActions: ActionHandle := Null)
      ensures this.stateName == stateName
      ensures this.entryActions == entryActions && this.regActions == regActions && this.exitActions == exitActions
      ensures stateTransitions == []
    {
      this.stateName := stateName;
      this.regActions := regActions;
      this.entryActions := entryActions;
      this.exitActions := exitActions;
      stateTransitions := [];
    }

    /** `AddTransition`: appends at the end, so earlier transitions keep their precedence. */
    method AddTransition(newTransition: StateTransition)
      modifies this`stateTransitions
      ensures stateTransitions == old(stateTransitions) + [newTransition]
    {
      stateTransitions := stateTransitions + [newTransition];
    }
  }

  /** `k` copies of transition `t`. */
  function Copies(t: StateTransition, k: nat): (r: seq<StateTransition>)
    ensures |r| == k && forall i :: 0 <= i < k ==> r[i] == t
  {
    seq(k, _ => t)
  }

  /** The driver of a flat machine. */
  class StateMachine {
    var states: seq<State>
    var initialState: Option<State>
    var currentState: Option<State>
    var anyStateTransitions: seq<StateTransition>
    const stateMachineEntryActions: ActionHandle
    const stateMachineExitActions: ActionHandle

    /** A new machine has no states, no any-state transitions and is not yet entered. */
    constructor (stateMachineEntryActions: ActionHandle, stateMachineExitActions: ActionHandle)
      ensures states == [] && anyStateTransitions == []
      ensures initialState == None && currentState == None
      ensures this.stateMachineEntryActions == stateMachineEntryActions
      ensures this.stateMachineExitActions == stateMachineExitActions
    {
      states := [];
      anyStateTransitions := [];
      initialState := None;
      currentState := None;
      this.stateMachineEntryActions := stateMachineEntryActions;
      this.stateMachineExitActions := stateMachineExitActions;
    }

    /** `SetInitialState(i)` indexes the state list without a guard, so `i` must be a valid index. */
    method SetInitialState(stateIdx: int)
      requires 0 <= stateIdx < |states|
      modifies this`initialState
      ensures initialState == Some(states[stateIdx])
    {
      initialState := Some(states[stateIdx]);
    }

    /** `AddState` appends to the state list. */
    method AddState(stateToAdd: State)
      modifies this`states
      ensures states == old(states) + [stateToAdd]
    {
      states := states + [stateToAdd];
    }

    /**
     * `AddAnyStateTransition`: one transition to `destState` for every
     * occurrence of `destState` in the state list, none when it is absent.
     */
    method AddAnyStateTransition(destState: State, transitionActions: ActionHandle, transitionCondition: Condition)
      modifies this`anyStateTransitions
      ensures anyStateTransitions ==
        old(anyStateTransitions) + Copies(StateTransition(Some(destState), transitionActions, transitionCondition), multiset(states)[destState])
    {
      var t := StateTransition(Some(destState), transitionActions, transitionCondition);
      var i := 0;
      while i < |states|
        invariant 0 <= i <= |states|
        invariant anyStateTransitions == old(anyStateTransitions) + Copies(t, multiset(states[..i])[destState])
      {
        assert states[..i + 1] == states[..i] + [states[i]];
        if destState == states[i] {
          anyStateTransitions := anyStateTransitions + [t];
          assert Copies(t, multiset(states[..i + 1])[destState]) == Copies(t, multiset(states[..i])[destState]) + [t];
        }
        i := i + 1;
      }
      assert states[..i] == states;
    }

    /**
     * `ExitStateMachine`: the current state's exit actions if there is one,
     * then the machine's exit actions; afterwards no state is current.
     */
    method ExitStateMachine() returns (exitActions: seq<ActionHandle>)
      modifies this`currentState
      ensures currentState == None
      ensures exitActions ==
        (if old(currentState).Some? then [old(currentState).value.exitActions] else []) + [stateMachineExitActions]
    {
      exitActions := [];
      if currentState.Some? {
        exitActions := exitActions + [currentState.value.exitActions];
      }
      currentState := None;
      exitActions := exitActions + [stateMachineExitActions];
    }

    /**
     * `GetActions`: one tick. Entering the machine yields the machine's and
     * the initial state's entry actions. Otherwise the first transition that
     * fires, any-state transitions before the current state's, either leaves
     * the machine (no target) or moves to its target; with none firing the
     * current state's regular actions are returned.
     */
    method GetActions(env: Env) returns (stateActions: seq<ActionHandle>)
      requires currentState.None? ==> initialState.Some?
      modifies this`currentState
      ensures old(currentState).None? ==>
        && currentState == initialState
        && stateActions == [stateMachineEntryActions, initialState.value.entryActions]
      ensures old(currentState).Some? ==>
        var cur := old(currentState).value;
        var trigger := FirstTriggered(anyStateTransitions + cur.stateTransitions, Guard, env);
        && (trigger.None? ==> currentState == old(currentState) && stateActions == [cur.regActions])
        && (trigger.Some? && trigger.value.targetState.None? ==>
              currentState == None && stateActions == [cur.exitActions, stateMachineExitActions])
        && (trigger.Some? && trigger.value.targetState.Some? ==>
              && currentState == trigger.value.targetState
              && stateActions == [cur.exitActions, trigger.value.transitionActions, trigger.value.targetState.value.entryActions])
    {
      if currentState.None? {
        currentState := initialState;
        stateActions := [stateMachineEntryActions, currentState.value.entryActions];
        return;
      }
      var cur := currentState.value;
      FirstTriggeredConcat(anyStateTransitions, cur.stateTransitions, Guard, env);
      var trigger := ScanTransitions(anyStateTransitions, Guard, env);
      if trigger.None? {
        trigger := ScanTransitions(cur.stateTransitions, Guard, env);
      }
      if trigger.Some? {
        var targetState := trigger.value.targetState;
        if targetState.None? {
          stateActions := ExitStateMachine();
        } else {
          stateActions := [cur.exitActions, trigger.value.transitionActions, targetState.value.entryActions];
          currentState := targetState;
        }
      } else {
        stateActions := [cur.regActions];
      }
    }
  }
}
