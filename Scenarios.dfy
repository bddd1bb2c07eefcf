/**
 * One small tree ticked by hand: a root R with children A and B, and A with
 * children A1 and A2. Each scenario fixes the current-child pointers and
 * which event latches are set, and states the actions of one tick of the
 * root together with the pointers after it.
 */
module Scenarios {
  import opened Wrappers
  import opened Actions
  import opened Conditions
  import opened Hierarchy

  const R: NodeId := 0
  const A: NodeId := 1
  const B: NodeId := 2
  const A1: NodeId := 3
  const A2: NodeId := 4

  /** The tree with R's current child `rc` and A's current child `ac`. */
  function Tree(rc: Option<NodeId>, ac: Option<NodeId>): seq<Node>
  {
    [ StateMachineState("R", 0, None, Handle(1), Handle(2), Handle(3), [], [A, B], Some(A), rc),
      StateMachineState("A", 1, Some(R), Handle(11), Handle(12), Handle(13),
                        [StateTransition(B, Handle(60), Event(1)), StateTransition(A2, Handle(80), Event(3))],
                        [A1, A2], Some(A1), ac),
      EndState("B", 1, Some(R), Handle(21), Handle(22), Handle(23), [StateTransition(A2, Handle(70), Event(2))]),
      EndState("A1", 2, Some(A), Handle(31), Handle(32), Handle(33), [StateTransition(A2, Handle(50), Event(0))]),
      EndState("A2", 2, Some(A), Handle(41), Handle(42), Handle(43), []) ]
  }

  /** Inputs under which exactly the latches in `set` are set. */
  function Latches(on: set<nat>): Env
  {
    Env(d => 0, l => l in on, f => false)
  }

  lemma TreeConsistent(rc: Option<NodeId>, ac: Option<NodeId>)
    requires rc == None || rc == Some(A) || rc == Some(B)
    requires ac == None || ac == Some(A1) || ac == Some(A2)
    ensures Consistent(Tree(rc, ac))
  {
    var ns := Tree(rc, ac);
    forall i | 0 <= i < |ns|
      ensures RefsInRange(ns, i) && Levelled(ns, i)
    {
    }
  }

  /** No latch set: each active node adds its regular action, innermost first, and nothing changes. */
  lemma QuietScenario()
    ensures Consistent(Tree(Some(A), Some(A1)))
    ensures Update(Tree(Some(A), Some(A1)), R, Latches({})) ==
      Outcome(UpdateResult([Handle(32), Handle(12), Handle(2)], None, 0), Tree(Some(A), Some(A1)))
  {
    var ns := Tree(Some(A), Some(A1));
    var env := Latches({});
    TreeConsistent(Some(A), Some(A1));
    assert Trigger(ns, A1, env) == None;
    assert Update(ns, A1, env) == Outcome(UpdateResult([Handle(32)], None, 0), ns);
    assert Trigger(ns, A, env) == None;
    assert Update(ns, A, env) == Outcome(UpdateResult([Handle(32), Handle(12)], None, 0), ns);
  }

  /**
   * Latch 0 set: A1's transition to its sibling A2 fires. A resolves it
   * (exit A1, transition, enter A2, A's regular action) and R adds its own.
   */
  lemma SiblingScenario()
    ensures Consistent(Tree(Some(A), Some(A1)))
    ensures Update(Tree(Some(A), Some(A1)), R, Latches({0})) ==
      Outcome(UpdateResult([Handle(33), Handle(50), Handle(41), Handle(12), Handle(2)], None, 0), Tree(Some(A), Some(A2)))
  {
    var ns := Tree(Some(A), Some(A1));
    var env := Latches({0});
    TreeConsistent(Some(A), Some(A1));
    TreeConsistent(Some(A), Some(A2));
    assert Trigger(ns, A, env) == None;
    assert Trigger(ns, A1, env) == Some(StateTransition(A2, Handle(50), Event(0)));
    assert SetCurrent(ns, A, Some(A2)) == Tree(Some(A), Some(A2));
    assert Update(ns, A, env) ==
      Outcome(UpdateResult([Handle(33), Handle(50), Handle(41), Handle(12)], None, 0), Tree(Some(A), Some(A2)));
  }

  /**
   * Latches 0 and 1 set: A's own transition to B is checked before A is
   * updated, so A1's transition never runs. R exits A but not A1, and A
   * keeps A1 as its current child.
   */
  lemma PreemptScenario()
    ensures Consistent(Tree(Some(A), Some(A1)))
    ensures Update(Tree(Some(A), Some(A1)), R, Latches({0, 1})) ==
      Outcome(UpdateResult([Handle(13), Handle(60), Handle(21), Handle(2)], None, 0), Tree(Some(B), Some(A1)))
  {
    var ns := Tree(Some(A), Some(A1));
    var env := Latches({0, 1});
    TreeConsistent(Some(A), Some(A1));
    assert Trigger(ns, A, env) == Some(StateTransition(B, Handle(60), Event(1)));
    assert SetCurrent(ns, R, Some(B)) == Tree(Some(B), Some(A1));
  }

  /**
   * From B, latch 2 set: B's transition targets A2, one level deeper. A
   * climbs to R, which exits B and enters A; A then exits A1, the child it
   * kept from before, and enters A2. No regular action follows.
   */
  lemma RouteDownScenario()
    ensures Consistent(Tree(Some(B), Some(A1)))
    ensures Update(Tree(Some(B), Some(A1)), R, Latches({2})) ==
      Outcome(UpdateResult([Handle(70), Handle(23), Handle(11), Handle(33), Handle(41)], None, -1), Tree(Some(A), Some(A2)))
  {
    var ns := Tree(Some(B), Some(A1));
    var env := Latches({2});
    TreeConsistent(Some(B), Some(A1));
    TreeConsistent(Some(A), Some(A1));
    assert Trigger(ns, B, env) == Some(StateTransition(A2, Handle(70), Event(2)));
    assert SetCurrent(ns, R, Some(A)) == Tree(Some(A), Some(A1));
    assert UpdateDown(ns, R, A, 0) == Descent([Handle(23), Handle(11)], Tree(Some(A), Some(A1)));
    assert SetCurrent(Tree(Some(A), Some(A1)), A, Some(A2)) == Tree(Some(A), Some(A2));
    assert UpdateDown(ns, A, A2, 1) == Descent([Handle(23), Handle(11), Handle(33), Handle(41)], Tree(Some(A), Some(A2)));
  }

  /**
   * Latch 3 set: A's transition targets its own child A2. Routing down
   * exits A and enters it again before moving A from A1 to A2.
   */
  lemma BeneathSourceScenario()
    ensures Consistent(Tree(Some(A), Some(A1)))
    ensures Update(Tree(Some(A), Some(A1)), R, Latches({3})) ==
      Outcome(UpdateResult([Handle(80), Handle(13), Handle(11), Handle(33), Handle(41)], None, -1), Tree(Some(A), Some(A2)))
  {
    var ns := Tree(Some(A), Some(A1));
    var env := Latches({3});
    TreeConsistent(Some(A), Some(A1));
    TreeConsistent(Some(A), Some(A2));
    assert !Test(Guard(ns[A].transitions[0]), env) && Test(Guard(ns[A].transitions[1]), env);
    assert FirstIndex(ns[A].transitions[1..], Guard, env) == 0;
    assert Trigger(ns, A, env) == Some(StateTransition(A2, Handle(80), Event(3)));
    assert SetCurrent(ns, R, Some(A)) == ns;
    assert UpdateDown(ns, R, A, 0) == Descent([Handle(13), Handle(11)], ns);
    assert SetCurrent(ns, A, Some(A2)) == Tree(Some(A), Some(A2));
    assert UpdateDown(ns, A, A2, 1) == Descent([Handle(13), Handle(11), Handle(33), Handle(41)], Tree(Some(A), Some(A2)));
  }
}
