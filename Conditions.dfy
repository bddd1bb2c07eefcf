/**
 * The condition algebra of the flat state machine: integer comparison under
 * six operators, short-circuit AND / OR, NOT, a resettable latch and a custom
 * boolean delegate. A condition is a value evaluated against an `Env`, a
 * snapshot of the outside world at the moment of the call.
 */
module Conditions {
  import opened Wrappers

  /** The comparison operators, in declaration order. */
  datatype CompareOperator = EQ | LT | GT | LTE | GTE | NEQ

  /** The underlying enum value of an operator. */
  function Code(op: CompareOperator): (k: int)
    ensures 0 <= k < 6
    ensures OperatorOf(k) == Some(op)
  {
    match op
    case EQ => 0
    case LT => 1
    case GT => 2
    case LTE => 3
    case GTE => 4
    case NEQ => 5
  }

  /** The operator a raw enum value denotes; `None` for a value outside the six members. */
  function OperatorOf(k: int): (r: Option<CompareOperator>)
    ensures r.Some? <==> 0 <= k < 6
  {
    if k == 0 then Some(EQ)
    else if k == 1 then Some(LT)
    else if k == 2 then Some(GT)
    else if k == 3 then Some(LTE)
    else if k == 4 then Some(GTE)
    else if k == 5 then Some(NEQ)
    else None
  }

  /** `sample <op> staticValue`, with the freshly sampled value on the left. */
  function Compare(op: CompareOperator, sample: int, staticValue: int): bool
  {
    match op
    case EQ => sample == staticValue
    case LT => sample < staticValue
    case GT => sample > staticValue
    case LTE => sample <= staticValue
    case GTE => sample >= staticValue
    case NEQ => sample != staticValue
  }

  /**
   * A condition. `IntComparer` keeps the operator as its raw enum value, so
   * that a value outside the six members can be represented. Delegates and
   * latches are named by number; `Env` says what they return or hold.
   */
  datatype Condition =
    | IntComparer(staticValue: int, valueDelegate: nat, compareOperator: int)
    | And(andSubConditions: seq<Condition>)
    | Or(orSubConditions: seq<Condition>)
    | Not(subCondition: Condition)
    | Event(latch: nat)
    | Delegate(conditionDelegate: nat)

  /**
   * The outside world when a condition is tested: what each value delegate
   * returns, whether each event latch is set, what each condition delegate
   * answers.
   */
  datatype Env = Env(sample: nat -> int, latched: nat -> bool, decide: nat -> bool)

  /** A call into code outside the engine made while testing a condition. */
  datatype Probe = Sampled(valueDelegate: nat) | Called(conditionDelegate: nat)

  /** The answer of `TestCondition` and the external calls it made, in order. */
  datatype Evaluation = Evaluation(value: bool, probes: seq<Probe>)

  /** The int comparer constructor: stores value, delegate and operator. */
  function IntComparerCondition(staticValue: int, valueDelegate: nat, op: CompareOperator): (c: Condition)
    ensures c.IntComparer? && OperatorOf(c.compareOperator) == Some(op)
    ensures c.staticValue == staticValue && c.valueDelegate == valueDelegate
  {
    IntComparer(staticValue, valueDelegate, Code(op))
  }

  /** The delegates condition `c` names: the only external calls testing it may make. */
  function Calls(c: Condition): set<Probe>
    decreases c, 1
  {
    match c
    case IntComparer(_, d, _) => {Sampled(d)}
    case And(subs) => CallsIn(subs)
    case Or(subs) => CallsIn(subs)
    case Not(sub) => Calls(sub)
    case Event(_) => {}
    case Delegate(f) => {Called(f)}
  }

  /** The delegates named by any condition of `subs`. */
  function CallsIn(subs: seq<Condition>): set<Probe>
    decreases subs, 0
  {
    if |subs| == 0 then {} else Calls(subs[0]) + CallsIn(subs[1..])
  }

  /**
   * `TestCondition` with its trace of delegate calls. A test calls only the
   * delegates its condition names; a latch reads its flag and calls nothing.
   */
  function Evaluate(c: Condition, env: Env): (e: Evaluation)
    ensures forall p :: p in e.probes ==> p in Calls(c)
    decreases c, 1
  {
    match c
    case IntComparer(v, d, k) =>
      (match OperatorOf(k)
       case Some(op) => Evaluation(Compare(op, env.sample(d), v), [Sampled(d)])
       case None => Evaluation(false, []))
    case And(subs) => EvaluateAll(subs, env)
    case Or(subs) => EvaluateAny(subs, env)
    case Not(sub) =>
      var e := Evaluate(sub, env);
      Evaluation(!e.value, e.probes)
    case Event(l) => Evaluation(env.latched(l), [])
    case Delegate(f) => Evaluation(env.decide(f), [Called(f)])
  }

  /** The loop of the AND condition: stop at the first false sub-condition. */
  function EvaluateAll(subs: seq<Condition>, env: Env): (e: Evaluation)
    ensures forall p :: p in e.probes ==> p in CallsIn(subs)
    decreases subs, 0
  {
    if |subs| == 0 then Evaluation(true, [])
    else
      var head := Evaluate(subs[0], env);
      if !head.value then Evaluation(false, head.probes)
      else
        var rest := EvaluateAll(subs[1..], env);
        Evaluation(rest.value, head.probes + rest.probes)
  }

  /** The loop of the OR condition: stop at the first true sub-condition. */
  function EvaluateAny(subs: seq<Condition>, env: Env): (e: Evaluation)
    ensures forall p :: p in e.probes ==> p in CallsIn(subs)
    decreases subs, 0
  {
    if |subs| == 0 then Evaluation(false, [])
    else
      var head := Evaluate(subs[0], env);
      if head.value then Evaluation(true, head.probes)
      else
        var rest := EvaluateAny(subs[1..], env);
        Evaluation(rest.value, head.probes + rest.probes)
  }

  /** `TestCondition()`. */
  function Test(c: Condition, env: Env): bool
  {
    Evaluate(c, env).value
  }

  /** The delegate calls of testing every sub-condition in turn. */
  function ProbesOf(subs: seq<Condition>, env: Env): seq<Probe>
  {
    if |subs| == 0 then [] else Evaluate(subs[0], env).probes + ProbesOf(subs[1..], env)
  }

  lemma {:induction false} ProbesOfSplit(subs: seq<Condition>, i: nat, env: Env)
    requires i < |subs|
    ensures ProbesOf(subs[..i+1], env) == ProbesOf(subs[..i], env) + Evaluate(subs[i], env).probes
  {
    if i == 0 {
      assert subs[..1] == [subs[0]];
      assert subs[..1][1..] == [];
    } else {
      assert subs[..i+1][1..] == subs[1..][..i];
      assert subs[..i][1..] == subs[1..][..i-1];
      ProbesOfSplit(subs[1..], i - 1, env);
    }
  }

  // ---- comparison -------------------------------------------------------

  /**
   * For each operator the comparer answers `sample <op> staticValue` for the
   * value the delegate returns at this call, and calls the delegate exactly
   * once; an undefined operator answers false without calling it.
   */
  lemma ComparerSemantics(v: int, d: nat, k: int, env: Env)
    ensures OperatorOf(k).Some? ==>
      Evaluate(IntComparer(v, d, k), env) == Evaluation(Compare(OperatorOf(k).value, env.sample(d), v), [Sampled(d)])
    ensures OperatorOf(k).None? ==> Evaluate(IntComparer(v, d, k), env) == Evaluation(false, [])
    ensures k == Code(EQ) ==> Test(IntComparer(v, d, k), env) == (env.sample(d) == v)
    ensures k == Code(LT) ==> Test(IntComparer(v, d, k), env) == (env.sample(d) < v)
    ensures k == Code(GT) ==> Test(IntComparer(v, d, k), env) == (env.sample(d) > v)
    ensures k == Code(LTE) ==> Test(IntComparer(v, d, k), env) == (env.sample(d) <= v)
    ensures k == Code(GTE) ==> Test(IntComparer(v, d, k), env) == (env.sample(d) >= v)
    ensures k == Code(NEQ) ==> Test(IntComparer(v, d, k), env) == (env.sample(d) != v)
  {
  }

  /** EQ/NEQ, LT/GTE and GT/LTE give complementary answers for the same sample. */
  lemma ComplementaryOperators(v: int, d: nat, env: Env)
    ensures Test(IntComparerCondition(v, d, EQ), env) == !Test(IntComparerCondition(v, d, NEQ), env)
    ensures Test(IntComparerCondition(v, d, LT), env) == !Test(IntComparerCondition(v, d, GTE), env)
    ensures Test(IntComparerCondition(v, d, GT), env) == !Test(IntComparerCondition(v, d, LTE), env)
  {
  }

  /** The operator round trip: a raw value that decodes encodes back to itself. */
  lemma OperatorRoundTrip(k: int)
    requires OperatorOf(k).Some?
    ensures Code(OperatorOf(k).value) == k
  {
  }

  // ---- AND ----------------------------------------------------------------

  /** AND is true iff every sub-condition is true (so AND of none is true). */
  lemma {:induction false} AndIsConjunction(subs: seq<Condition>, env: Env)
    ensures Test(And(subs), env) <==> forall i :: 0 <= i < |subs| ==> Test(subs[i], env)
  {
    AllIsConjunction(subs, env);
  }

  lemma {:induction false} AllIsConjunction(subs: seq<Condition>, env: Env)
    ensures EvaluateAll(subs, env).value <==> forall i :: 0 <= i < |subs| ==> Test(subs[i], env)
  {
    if |subs| > 0 {
      AllIsConjunction(subs[1..], env);
      assert forall i :: 1 <= i < |subs| ==> subs[i] == subs[1..][i-1];
    }
  }

  /**
   * AND tests its sub-conditions in order and stops at the first false one:
   * the sub-conditions after it are never tested.
   */
  lemma {:induction false} AndStopsAtFirstFalse(subs: seq<Condition>, i: nat, env: Env)
    requires i < |subs| && !Test(subs[i], env)
    requires forall j :: 0 <= j < i ==> Test(subs[j], env)
    ensures Evaluate(And(subs), env) == Evaluation(false, ProbesOf(subs[..i+1], env))
  {
    AllStopsAtFirstFalse(subs, i, env);
  }

  lemma {:induction false} AllStopsAtFirstFalse(subs: seq<Condition>, i: nat, env: Env)
    requires i < |subs| && !Test(subs[i], env)
    requires forall j :: 0 <= j < i ==> Test(subs[j], env)
    ensures EvaluateAll(subs, env) == Evaluation(false, ProbesOf(subs[..i+1], env))
  {
    if i == 0 {
      assert subs[..1] == [subs[0]];
      assert subs[..1][1..] == [];
    } else {
      assert subs[..i+1][1..] == subs[1..][..i];
      AllStopsAtFirstFalse(subs[1..], i - 1, env);
    }
  }

  /** When every sub-condition is true, AND tests all of them, in order. */
  lemma {:induction false} AndTestsAllWhenTrue(subs: seq<Condition>, env: Env)
    requires forall j :: 0 <= j < |subs| ==> Test(subs[j], env)
    ensures Evaluate(And(subs), env) == Evaluation(true, ProbesOf(subs, env))
  {
    AllTestsAllWhenTrue(subs, env);
  }

  lemma {:induction false} AllTestsAllWhenTrue(subs: seq<Condition>, env: Env)
    requires forall j :: 0 <= j < |subs| ==> Test(subs[j], env)
    ensures EvaluateAll(subs, env) == Evaluation(true, ProbesOf(subs, env))
  {
    if |subs| > 0 {
      assert Test(subs[0], env);
      AllTestsAllWhenTrue(subs[1..], env);
    }
  }

  // ---- OR -----------------------------------------------------------------

  /** OR is true iff some sub-condition is true (so OR of none is false). */
  lemma {:induction false} OrIsDisjunction(subs: seq<Condition>, env: Env)
    ensures Test(Or(subs), env) <==> exists i :: 0 <= i < |subs| && Test(subs[i], env)
  {
    AnyIsDisjunction(subs, env);
  }

  lemma {:induction false} AnyIsDisjunction(subs: seq<Condition>, env: Env)
    ensures EvaluateAny(subs, env).value <==> exists i :: 0 <= i < |subs| && Test(subs[i], env)
  {
    if |subs| > 0 {
      AnyIsDisjunction(subs[1..], env);
      assert forall i :: 1 <= i < |subs| ==> subs[i] == subs[1..][i-1];
      if !Test(subs[0], env) && exists i :: 0 <= i < |subs| && Test(subs[i], env) {
        var i :| 0 <= i < |subs| && Test(subs[i], env);
        assert subs[1..][i-1] == subs[i];
      }
    }
  }

  /** OR tests its sub-conditions in order and stops at the first true one. */
  lemma {:induction false} OrStopsAtFirstTrue(subs: seq<Condition>, i: nat, env: Env)
    requires i < |subs| && Test(subs[i], env)
    requires forall j :: 0 <= j < i ==> !Test(subs[j], env)
    ensures Evaluate(Or(subs), env) == Evaluation(true, ProbesOf(subs[..i+1], env))
  {
    AnyStopsAtFirstTrue(subs, i, env);
  }

  lemma {:induction false} AnyStopsAtFirstTrue(subs: seq<Condition>, i: nat, env: Env)
    requires i < |subs| && Test(subs[i], env)
    requires forall j :: 0 <= j < i ==> !Test(subs[j], env)
    ensures EvaluateAny(subs, env) == Evaluation(true, ProbesOf(subs[..i+1], env))
  {
    if i == 0 {
      assert subs[..1] == [subs[0]];
      assert subs[..1][1..] == [];
    } else {
      assert subs[..i+1][1..] == subs[1..][..i];
      AnyStopsAtFirstTrue(subs[1..], i - 1, env);
    }
  }

  /** When every sub-condition is false, OR tests all of them, in order. */
  lemma {:induction false} OrTestsAllWhenFalse(subs: seq<Condition>, env: Env)
    requires forall j :: 0 <= j < |subs| ==> !Test(subs[j], env)
    ensures Evaluate(Or(subs), env) == Evaluation(false, ProbesOf(subs, env))
  {
    AnyTestsAllWhenFalse(subs, env);
  }

  lemma {:induction false} AnyTestsAllWhenFalse(subs: seq<Condition>, env: Env)
    requires forall j :: 0 <= j < |subs| ==> !Test(subs[j], env)
    ensures EvaluateAny(subs, env) == Evaluation(false, ProbesOf(subs, env))
  {
    if |subs| > 0 {
      assert !Test(subs[0], env);
      AnyTestsAllWhenFalse(subs[1..], env);
    }
  }

  // ---- NOT ----------------------------------------------------------------

  /** NOT negates its sub-condition, testing it exactly once; NOT NOT c is c. */
  lemma NotNegates(c: Condition, env: Env)
    ensures Evaluate(Not(c), env) == Evaluation(!Evaluate(c, env).value, Evaluate(c, env).probes)
    ensures Evaluate(Not(Not(c)), env) == Evaluate(c, env)
  {
  }

  // ---- the first triggered transition ------------------------------------

  /**
   * The index of the first element whose guard holds, or `|ts|` when none
   * does: the `foreach`/`break` scan both engines run over transitions.
   */
  function FirstIndex<T>(ts: seq<T>, guard: T -> Condition, env: Env): (i: nat)
    ensures i <= |ts|
    ensures i < |ts| ==> Test(guard(ts[i]), env)
    ensures forall j :: 0 <= j < i ==> !Test(guard(ts[j]), env)
  {
    if |ts| == 0 then 0
    else if Test(guard(ts[0]), env) then 0
    else 1 + FirstIndex(ts[1..], guard, env)
  }

  /** The first element whose guard holds, if any. */
  function FirstTriggered<T>(ts: seq<T>, guard: T -> Condition, env: Env): Option<T>
  {
    var i := FirstIndex(ts, guard, env);
    if i < |ts| then Some(ts[i]) else None
  }

  /**
   * Scanning the concatenation of two lists finds the first triggered element
   * of the first list, and only if there is none the first of the second.
   */
  lemma {:induction false} FirstTriggeredConcat<T>(a: seq<T>, b: seq<T>, guard: T -> Condition, env: Env)
    ensures FirstTriggered(a + b, guard, env) ==
      if FirstTriggered(a, guard, env).Some? then FirstTriggered(a, guard, env) else FirstTriggered(b, guard, env)
  {
    if |a| > 0 {
      assert (a + b)[0] == a[0];
      if !Test(guard(a[0]), env) {
        assert (a + b)[1..] == a[1..] + b;
        FirstTriggeredConcat(a[1..], b, guard, env);
      }
    } else {
      assert a + b == b;
    }
  }

  /**
   * The scan loop itself: test the transitions in list order and stop at the
   * first whose condition holds.
   */
  method ScanTransitions<T>(ts: seq<T>, guard: T -> Condition, env: Env) returns (trigger: Option<T>)
    ensures trigger == FirstTriggered(ts, guard, env)
    ensures trigger.None? <==> forall j :: 0 <= j < |ts| ==> !Test(guard(ts[j]), env)
  {
    trigger := None;
    var i := 0;
    while i < |ts|
      invariant 0 <= i <= |ts|
      invariant forall j :: 0 <= j < i ==> !Test(guard(ts[j]), env)
    {
      if Test(guard(ts[i]), env) {
        trigger := Some(ts[i]);
        FirstIndexIsUnique(ts, guard, env, i);
        return;
      }
      i := i + 1;
    }
    FirstIndexIsUnique(ts, guard, env, |ts|);
  }

  /** The first index is the only index before which nothing triggers and at which something does. */
  lemma FirstIndexIsUnique<T>(ts: seq<T>, guard: T -> Condition, env: Env, i: nat)
    requires i <= |ts|
    requires i < |ts| ==> Test(guard(ts[i]), env)
    requires forall j :: 0 <= j < i ==> !Test(guard(ts[j]), env)
    ensures FirstIndex(ts, guard, env) == i
  {
  }
}
