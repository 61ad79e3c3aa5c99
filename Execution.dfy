/** Carrying out an operation. Every controller operation is a plan: the
    external steps it means to run, in order, each paired with what its
    failure means, and the checks it makes between them. Running a plan stops
    at the first action that does not go through; the operation's outcome is
    that action's error, and the steps it ran are the ones up to it. */
module Execution {
  import opened Results
  import opened Errors
  import opened Repository

  /** One action of a plan. */
  datatype Action =
      // A step whose failure ends the operation with `failure`.
    | Run(step: Step, failure: Error)
      // A best-effort step: its failure is reported and otherwise ignored.
    | Attempt(step: Step)
      // A check that runs nothing: the operation ends with `failure` unless it holds.
    | Require(holds: bool, failure: Error)

  /** Whether an action goes through on `host`. */
  predicate Succeeds(a: Action, host: Host) {
    match a
    case Run(step, _) => host.succeeds(step)
    case Attempt(_) => true
    case Require(holds, _) => holds
  }

  /** The step an action runs, if it runs one. */
  function StepsOf(a: Action): seq<Step> {
    if a.Require? then [] else [a.step]
  }

  /** The steps a plan runs when every action goes through. */
  function Steps(plan: seq<Action>): seq<Step> {
    if plan == [] then [] else StepsOf(plan[0]) + Steps(plan[1..])
  }

  /** Every action of the plan goes through. */
  predicate Completes(plan: seq<Action>, host: Host) {
    forall i :: 0 <= i < |plan| ==> Succeeds(plan[i], host)
  }

  /** Runs `plan` on `host`: the outcome and the steps that ran. */
  function Perform(plan: seq<Action>, host: Host): (Outcome<Error>, seq<Step>) {
    if plan == [] then (Pass, [])
    else if !Succeeds(plan[0], host) then (Fail(plan[0].failure), StepsOf(plan[0]))
    else
      var rest := Perform(plan[1..], host);
      (rest.0, StepsOf(plan[0]) + rest.1)
  }

  /** The plan with every failure replaced by `failure`: how an operation
      that catches whatever a phase raises re-raises it as its own error. */
  function Wrapped(plan: seq<Action>, failure: Error): (w: seq<Action>)
    ensures |w| == |plan|
    ensures forall i :: 0 <= i < |plan| ==>
              match plan[i]
              case Run(step, _) => w[i] == Run(step, failure)
              case Attempt(step) => w[i] == Attempt(step)
              case Require(holds, _) => w[i] == Require(holds, failure)
  {
    if plan == [] then []
    else
      var head := match plan[0]
        case Run(step, _) => Run(step, failure)
        case Attempt(step) => Attempt(step)
        case Require(holds, _) => Require(holds, failure);
      [head] + Wrapped(plan[1..], failure)
  }

  /** The plan of one step that may be impossible to form: its own error,
      running nothing, when it cannot be formed; otherwise running it, a
      failure of which is `failure`. */
  function Stage(s: Result<Step, Error>, failure: Error): (plan: seq<Action>)
    ensures s.Failure? ==> plan == [Require(false, s.error)]
    ensures s.Success? ==> plan == [Run(s.value, failure)]
  {
    if s.Failure? then [Require(false, s.error)] else [Run(s.value, failure)]
  }

  // ---------------------------------------------------------------------------
  // What running a plan means

  lemma PerformCons(a: Action, rest: seq<Action>, host: Host)
    ensures Perform([a] + rest, host) ==
              if !Succeeds(a, host) then (Fail(a.failure), StepsOf(a))
              else (Perform(rest, host).0, StepsOf(a) + Perform(rest, host).1)
  {
    assert ([a] + rest)[0] == a && ([a] + rest)[1..] == rest;
  }

  /** Running a plan of one action. */
  lemma PerformOne(a: Action, host: Host)
    ensures Perform([a], host) ==
              if !Succeeds(a, host) then (Fail(a.failure), StepsOf(a)) else (Pass, StepsOf(a))
  {
    PerformCons(a, [], host);
    assert [a] + [] == [a];
    assert StepsOf(a) + [] == StepsOf(a);
  }

  /** A plan passes exactly when every action goes through, and then it has
      run exactly the plan's steps; whatever happens, the steps that ran are
      the plan's steps up to where it stopped. */
  lemma {:induction false} PerformMeaning(plan: seq<Action>, host: Host)
    ensures Perform(plan, host).0.Pass? <==> Completes(plan, host)
    ensures Perform(plan, host).0.Pass? ==> Perform(plan, host).1 == Steps(plan)
    ensures Perform(plan, host).1 <= Steps(plan)
  {
    if plan != [] {
      PerformMeaning(plan[1..], host);
      if Succeeds(plan[0], host) {
        assert Completes(plan, host) <==> Completes(plan[1..], host) by {
          if Completes(plan[1..], host) {
            forall i | 0 <= i < |plan|
              ensures Succeeds(plan[i], host)
            {
              if i > 0 {
                assert plan[i] == plan[1..][i - 1];
              }
            }
          }
        }
      }
    }
  }

  /** A plan that fails names the failure of the first action that does not
      go through, and every action before that one went through. */
  lemma {:induction false} PerformFailure(plan: seq<Action>, host: Host)
    requires Perform(plan, host).0.Fail?
    ensures exists k :: 0 <= k < |plan|
              && !Succeeds(plan[k], host)
              && Completes(plan[..k], host)
              && Perform(plan, host).0 == Fail(plan[k].failure)
  {
    if !Succeeds(plan[0], host) {
      assert plan[..0] == [];
      assert Completes(plan[..0], host);
    } else {
      var tail := plan[1..];
      PerformFailure(tail, host);
      var k :| 0 <= k < |tail|
               && !Succeeds(tail[k], host)
               && Completes(tail[..k], host)
               && Perform(tail, host).0 == Fail(tail[k].failure);
      var pre := plan[..k + 1];
      assert Completes(pre, host) by {
        forall i | 0 <= i < |pre|
          ensures Succeeds(pre[i], host)
        {
          if i == 0 {
            assert pre[i] == plan[0];
          } else {
            assert pre[i] == tail[..k][i - 1];
          }
        }
      }
      assert plan[k + 1] == tail[k];
    }
  }

  /** Running one plan after another: the second runs only when the first
      passes, and the steps add up. */
  lemma {:induction false} PerformAppend(a: seq<Action>, b: seq<Action>, host: Host)
    ensures Perform(a + b, host) ==
              if Perform(a, host).0.Fail? then Perform(a, host)
              else (Perform(b, host).0, Perform(a, host).1 + Perform(b, host).1)
  {
    if a == [] {
      assert a + b == b;
      assert [] + Perform(b, host).1 == Perform(b, host).1;
    } else {
      assert a + b != [] && (a + b)[0] == a[0] && (a + b)[1..] == a[1..] + b;
      PerformAppend(a[1..], b, host);
      var head := StepsOf(a[0]);
      var restA := Perform(a[1..], host).1;
      assert head + (restA + Perform(b, host).1) == (head + restA) + Perform(b, host).1;
    }
  }

  /** A wrapped plan runs the same steps and passes exactly when the plan
      does; only the error changes. */
  lemma {:induction false} PerformWrapped(plan: seq<Action>, failure: Error, host: Host)
    ensures Perform(Wrapped(plan, failure), host) ==
              (if Perform(plan, host).0.Pass? then Pass else Fail(failure), Perform(plan, host).1)
  {
    if plan != [] {
      var w := Wrapped(plan, failure);
      assert w[1..] == Wrapped(plan[1..], failure);
      PerformWrapped(plan[1..], failure, host);
    }
  }

  /** Running the plan of one step. */
  lemma PerformStage(s: Result<Step, Error>, failure: Error, host: Host)
    ensures Perform(Stage(s, failure), host) ==
              if s.Failure? then (Fail(s.error), [])
              else (if host.succeeds(s.value) then Pass else Fail(failure), [s.value])
  {
    var a := if s.Failure? then Require(false, s.error) else Run(s.value, failure);
    PerformCons(a, [], host);
    assert [a] + [] == [a] == Stage(s, failure);
    assert Perform([], host) == (Pass, []);
    assert StepsOf(a) + [] == StepsOf(a);
  }
}
