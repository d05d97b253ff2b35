/** Runs of a state machine: inputs, each allowed where it comes, and the states before,
    between and after them. */
module Runs {

  ghost predicate IsRun<S, I>(start: S, allowed: (S, I) -> bool, step: (S, I) -> S,
                                         inputs: seq<I>, states: seq<S>)
    decreases |inputs|
  {
    |states| == |inputs| + 1
    && if inputs == [] then states[0] == start
       else
         var n := |inputs| - 1;
         IsRun(start, allowed, step, inputs[..n], states[..n + 1])
         && allowed(states[n], inputs[n]) && states[n + 1] == step(states[n], inputs[n])
  }

  /** One step of a run. */
  lemma {:induction false} RunStep<S, I>(start: S, allowed: (S, I) -> bool, step: (S, I) -> S,
                                         inputs: seq<I>, states: seq<S>, k: nat)
    requires IsRun(start, allowed, step, inputs, states) && k < |inputs|
    ensures allowed(states[k], inputs[k]) && states[k + 1] == step(states[k], inputs[k])
    decreases |inputs|
  {
    var n := |inputs| - 1;
    if k < n {
      RunStep(start, allowed, step, inputs[..n], states[..n + 1], k);
    }
  }

  lemma {:induction false} RunStarts<S, I>(start: S, allowed: (S, I) -> bool, step: (S, I) -> S,
                                           inputs: seq<I>, states: seq<S>)
    requires IsRun(start, allowed, step, inputs, states)
    ensures states[0] == start
    decreases |inputs|
  {
    if inputs != [] {
      RunStarts(start, allowed, step, inputs[..|inputs| - 1], states[..|inputs|]);
    }
  }

  lemma {:induction false} RunExtends<S, I>(start: S, allowed: (S, I) -> bool, step: (S, I) -> S,
                                            inputs: seq<I>, states: seq<S>, i: I)
    requires IsRun(start, allowed, step, inputs, states) && allowed(states[|inputs|], i)
    ensures IsRun(start, allowed, step, inputs + [i], states + [step(states[|inputs|], i)])
  {
    var more := states + [step(states[|inputs|], i)];
    assert (inputs + [i])[..|inputs|] == inputs && more[..|inputs| + 1] == states;
  }

  /** What held once and later does not was lost at some step in between. */
  lemma LastTrue(p: int -> bool, m: nat, n: nat) returns (k: nat)
    requires m <= n && p(m) && !p(n)
    ensures m <= k < n && p(k) && !p(k + 1)
  {
    k := m;
    while p(k + 1)
      invariant m <= k < n && p(k)
      decreases n - k
    {
      k := k + 1;
    }
  }
}
