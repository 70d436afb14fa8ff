/** The stop-at-first-failure loop that `set` runs: each item is handed to a
    step that either succeeds and updates the state or fails, and the first
    failure ends the loop, keeping everything done up to it. */

module Loops {
  import opened Wrappers

  /** Apply `step` to each item in turn; stop at the first item whose step
      fails, giving the state then and that item's position. */
  function RunUntilFailure<S, T>(step: (S, T) -> (S, bool), s: S, items: seq<T>): (r: (S, Option<nat>))
    ensures r.1.Some? ==> r.1.value < |items|
    decreases |items|
  {
    if |items| == 0 then (s, None)
    else
      var next := step(s, items[0]);
      if !next.1 then (next.0, Some(0))
      else
        var rest := RunUntilFailure(step, next.0, items[1..]);
        (rest.0, if rest.1.Some? then Some(rest.1.value + 1) else None)
  }

  /** The state after the first `k` steps, whatever each of them answered. */
  function StateAfter<S, T>(step: (S, T) -> (S, bool), s: S, items: seq<T>, k: nat): S
    requires k <= |items|
    decreases k
  {
    if k == 0 then s else step(StateAfter(step, s, items, k - 1), items[k - 1]).0
  }

  /** One more step. */
  lemma StateAfterStep<S, T>(step: (S, T) -> (S, bool), s: S, items: seq<T>, k: nat)
    requires k < |items|
    ensures StateAfter(step, s, items, k + 1) == step(StateAfter(step, s, items, k), items[k]).0
  {
  }

  /** A property every step keeps holds of every state the loop passes
      through. */
  lemma {:induction false} InvariantHolds<S, T>(step: (S, T) -> (S, bool), s: S, items: seq<T>, inv: S -> bool, k: nat)
    requires k <= |items|
    requires inv(s)
    requires forall x, t :: inv(x) ==> inv(step(x, t).0)
    ensures inv(StateAfter(step, s, items, k))
    decreases k
  {
    if k > 0 {
      InvariantHolds(step, s, items, inv, k - 1);
    }
  }

  /** Step `j` succeeds, run on the state the earlier steps left. */
  predicate StepOk<S, T>(step: (S, T) -> (S, bool), s: S, items: seq<T>, j: nat)
    requires j < |items|
  {
    step(StateAfter(step, s, items, j), items[j]).1
  }

  /** Running the first item before the rest is running the rest from the
      state the first step left. */
  lemma {:induction false} StateAfterShift<S, T>(step: (S, T) -> (S, bool), s: S, items: seq<T>, j: nat)
    requires j < |items|
    ensures StateAfter(step, s, items, j + 1) == StateAfter(step, step(s, items[0]).0, items[1..], j)
    decreases j
  {
    if j > 0 {
      StateAfterShift(step, s, items, j - 1);
      assert items[1..][j - 1] == items[j];
    }
  }

  /** The loop stops exactly at the first failing step, after every earlier
      one succeeded, with the state of all steps up to and including it; when
      no step fails it runs them all. */
  lemma {:induction false} RunStopsAtFirstFailure<S, T>(step: (S, T) -> (S, bool), s: S, items: seq<T>)
    ensures var r := RunUntilFailure(step, s, items);
      && (r.1.None? <==> forall j :: 0 <= j < |items| ==> StepOk(step, s, items, j))
      && (r.1.None? ==> r.0 == StateAfter(step, s, items, |items|))
      && (r.1.Some? ==>
            && (forall j :: 0 <= j < r.1.value ==> StepOk(step, s, items, j))
            && !StepOk(step, s, items, r.1.value)
            && r.0 == StateAfter(step, s, items, r.1.value + 1))
    decreases |items|
  {
    if |items| > 0 {
      var next := step(s, items[0]);
      assert StepOk(step, s, items, 0) == next.1;
      assert StateAfter(step, s, items, 1) == next.0;
      if next.1 {
        RunStopsAtFirstFailure(step, next.0, items[1..]);
        forall j | 0 <= j < |items|
          ensures StateAfter(step, s, items, j + 1) == StateAfter(step, next.0, items[1..], j)
        {
          StateAfterShift(step, s, items, j);
        }
        forall j | 0 < j < |items|
          ensures StepOk(step, s, items, j) == StepOk(step, next.0, items[1..], j - 1)
        {
          assert items[1..][j - 1] == items[j];
        }
        forall j | 0 <= j < |items| - 1
          ensures StepOk(step, next.0, items[1..], j) == StepOk(step, s, items, j + 1)
        {
          assert items[1..][j] == items[j + 1];
        }
      }
    }
  }

  /** So the first failing step is where the loop stops. */
  lemma FirstFailureStops<S, T>(step: (S, T) -> (S, bool), s: S, items: seq<T>, k: nat)
    requires k < |items|
    requires forall j :: 0 <= j < k ==> StepOk(step, s, items, j)
    requires !StepOk(step, s, items, k)
    ensures RunUntilFailure(step, s, items) == (StateAfter(step, s, items, k + 1), Some(k))
  {
    RunStopsAtFirstFailure(step, s, items);
  }
}
