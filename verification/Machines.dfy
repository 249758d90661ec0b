/** Runs of a state machine, shared by every protocol model in this project.
    A machine is a pair of relations: which states it may start in, and which steps it may take. */
module Machines {

  /** A finite run: it starts in an initial state and every later state is one step after the one before. */
  ghost predicate IsRun<S(!new)>(init: S -> bool, next: (S, S) -> bool, run: seq<S>) {
    && 0 < |run|
    && init(run[0])
    && forall i | 0 < i < |run| :: next(run[i - 1], run[i])
  }

  ghost predicate Reachable<S(!new)>(init: S -> bool, next: (S, S) -> bool, s: S) {
    exists run :: IsRun(init, next, run) && run[|run| - 1] == s
  }

  /** Whatever holds initially and is kept by every step holds at every index of every run. */
  lemma {:induction false} InvariantAlongRun<S(!new)>(init: S -> bool, next: (S, S) -> bool, inv: S -> bool,
                                                      run: seq<S>, i: nat)
    requires IsRun(init, next, run) && i < |run|
    requires forall s | init(s) :: inv(s)
    requires forall s, s' | inv(s) && next(s, s') :: inv(s')
    ensures inv(run[i])
  {
    if i == 0 {
    } else {
      InvariantAlongRun(init, next, inv, run, i - 1);
      assert next(run[i - 1], run[i]);
    }
  }

  lemma InvariantReachable<S(!new)>(init: S -> bool, next: (S, S) -> bool, inv: S -> bool, s: S)
    requires Reachable(init, next, s)
    requires forall s | init(s) :: inv(s)
    requires forall s, s' | inv(s) && next(s, s') :: inv(s')
    ensures inv(s)
  {
    var run :| IsRun(init, next, run) && run[|run| - 1] == s;
    InvariantAlongRun(init, next, inv, run, |run| - 1);
  }

  lemma InitialReachable<S(!new)>(init: S -> bool, next: (S, S) -> bool, s: S)
    requires init(s)
    ensures Reachable(init, next, s)
  {
    assert IsRun(init, next, [s]);
  }

  lemma StepReachable<S(!new)>(init: S -> bool, next: (S, S) -> bool, s: S, s': S)
    requires Reachable(init, next, s) && next(s, s')
    ensures Reachable(init, next, s')
  {
    var run :| IsRun(init, next, run) && run[|run| - 1] == s;
    assert IsRun(init, next, run + [s']);
  }

  /** Taking one enabled action. */
  lemma Do<S(!new), A(!new)>(init: S -> bool, next: (S, S) -> bool, enabled: (S, A) -> bool, apply: (S, A) --> S,
                             s: S, a: A)
    returns (s': S)
    requires Reachable(init, next, s) && enabled(s, a)
    requires apply.requires(s, a) && next(s, apply(s, a))
    ensures s' == apply(s, a) && Reachable(init, next, s')
  {
    s' := apply(s, a);
    StepReachable(init, next, s, s');
  }

  /** A stretch of a run together with the actions that were taken: acts[i] leads from run[i] to run[i + 1]. */
  ghost predicate IsTrace<S, A>(step: (S, A, S) -> bool, run: seq<S>, acts: seq<A>) {
    |run| == |acts| + 1 && forall i | 0 <= i < |acts| :: step(run[i], acts[i], run[i + 1])
  }

  /** One machine simulates another when `abs` takes initial states to initial states and every step to a step or
      to nothing at all; then it takes every reachable state to a reachable state. */
  lemma SimulatedReachable<S(!new), T(!new)>(init: S -> bool, next: (S, S) -> bool,
                                             init': T -> bool, next': (T, T) -> bool, abs: S -> T, s: S)
    requires Reachable(init, next, s)
    requires forall s | init(s) :: init'(abs(s))
    requires forall s, s' | Reachable(init, next, s) && next(s, s') :: abs(s') == abs(s) || next'(abs(s), abs(s'))
    ensures Reachable(init', next', abs(s))
  {
    var run :| IsRun(init, next, run) && run[|run| - 1] == s;
    SimulatedRun(init, next, init', next', abs, run);
  }

  lemma {:induction false} SimulatedRun<S(!new), T(!new)>(init: S -> bool, next: (S, S) -> bool,
                                                          init': T -> bool, next': (T, T) -> bool, abs: S -> T,
                                                          run: seq<S>)
    requires IsRun(init, next, run)
    requires forall s | init(s) :: init'(abs(s))
    requires forall s, s' | Reachable(init, next, s) && next(s, s') :: abs(s') == abs(s) || next'(abs(s), abs(s'))
    ensures Reachable(init', next', abs(run[|run| - 1]))
  {
    var n := |run| - 1;
    if n == 0 {
      InitialReachable(init', next', abs(run[0]));
    } else {
      SimulatedRun(init, next, init', next', abs, run[..n]);
      assert Reachable(init, next, run[..n][n - 1]);
      if abs(run[n]) != abs(run[n - 1]) {
        StepReachable(init', next', abs(run[n - 1]), abs(run[n]));
      }
    }
  }
}
