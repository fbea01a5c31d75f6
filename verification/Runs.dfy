/** Runs of a state machine: any number of threads, interleaved step by step. */
module Runs {

  type Tid = nat

  /** Each step can be taken in the state that the steps before it lead to. */
  predicate IsRun<S, T>(enabled: (S, T) -> bool, next: (S, T) -> S, s: S, steps: seq<T>)
    decreases |steps|
  {
    steps == [] || (enabled(s, steps[0]) && IsRun(enabled, next, next(s, steps[0]), steps[1..]))
  }

  function After<S, T>(next: (S, T) -> S, s: S, steps: seq<T>): S
    decreases |steps|
  {
    if steps == [] then s else After(next, next(s, steps[0]), steps[1..])
  }

  /** The state before step `i` of a run. */
  function Before<S, T>(next: (S, T) -> S, s: S, steps: seq<T>, i: nat): S
    requires i <= |steps|
  {
    After(next, s, steps[..i])
  }

  /** What every step keeps, every run keeps. */
  lemma {:induction false} RunKeeps<S(!new), T(!new)>(enabled: (S, T) -> bool, next: (S, T) -> S, inv: S -> bool,
                                                      s: S, steps: seq<T>)
    requires forall x, step :: inv(x) && enabled(x, step) ==> inv(next(x, step))
    requires inv(s) && IsRun(enabled, next, s, steps)
    ensures inv(After(next, s, steps))
    decreases |steps|
  {
    if steps != [] {
      RunKeeps(enabled, next, inv, next(s, steps[0]), steps[1..]);
    }
  }

  lemma {:induction false} RunAppend<S, T>(enabled: (S, T) -> bool, next: (S, T) -> S, s: S, a: seq<T>, b: seq<T>)
    requires IsRun(enabled, next, s, a)
    ensures IsRun(enabled, next, s, a + b) == IsRun(enabled, next, After(next, s, a), b)
    ensures After(next, s, a + b) == After(next, After(next, s, a), b)
    decreases |a|
  {
    if a == [] {
      assert a + b == b;
    } else {
      assert (a + b)[1..] == a[1..] + b;
      RunAppend(enabled, next, next(s, a[0]), a[1..], b);
    }
  }

  // ------------------------------------------------------------------------
  // Every step, every state
  // ------------------------------------------------------------------------

  /** No step of the run is taken in a state where it is bad. */
  ghost predicate Never<S, T>(next: (S, T) -> S, bad: (S, T) -> bool, s: S, steps: seq<T>) {
    forall i :: 0 <= i < |steps| ==> !bad(Before(next, s, steps, i), steps[i])
  }

  /** Every state of the run is good. */
  ghost predicate Always<S, T>(next: (S, T) -> S, good: S -> bool, s: S, steps: seq<T>) {
    forall i :: 0 <= i <= |steps| ==> good(Before(next, s, steps, i))
  }

  lemma BeforeTail<S, T>(next: (S, T) -> S, s: S, steps: seq<T>)
    requires steps != []
    ensures Before(next, s, steps, 0) == s
    ensures forall i :: 0 <= i < |steps| ==>
      Before(next, s, steps, i + 1) == Before(next, next(s, steps[0]), steps[1..], i)
  {
    forall i | 0 <= i < |steps|
      ensures Before(next, s, steps, i + 1) == Before(next, next(s, steps[0]), steps[1..], i)
    {
      assert steps[..i + 1][1..] == steps[1..][..i];
    }
  }

  lemma NeverTail<S, T>(next: (S, T) -> S, bad: (S, T) -> bool, s: S, steps: seq<T>)
    requires steps != []
    ensures Never(next, bad, s, steps) <==>
      !bad(s, steps[0]) && Never(next, bad, next(s, steps[0]), steps[1..])
  {
    var s', rest := next(s, steps[0]), steps[1..];
    BeforeTail(next, s, steps);
    if !bad(s, steps[0]) && Never(next, bad, s', rest) {
      forall i | 0 <= i < |steps| ensures !bad(Before(next, s, steps, i), steps[i]) {
        if i > 0 { assert !bad(Before(next, s', rest, i - 1), rest[i - 1]); }
      }
    }
    if Never(next, bad, s, steps) {
      assert !bad(Before(next, s, steps, 0), steps[0]);
      forall i | 0 <= i < |rest| ensures !bad(Before(next, s', rest, i), rest[i]) {
        assert !bad(Before(next, s, steps, i + 1), steps[i + 1]);
      }
    }
  }

  lemma AlwaysTail<S, T>(next: (S, T) -> S, good: S -> bool, s: S, steps: seq<T>)
    requires steps != []
    ensures Always(next, good, s, steps) <==> good(s) && Always(next, good, next(s, steps[0]), steps[1..])
    ensures Always(next, good, s, steps) ==> good(next(s, steps[0]))
  {
    var s', rest := next(s, steps[0]), steps[1..];
    BeforeTail(next, s, steps);
    assert rest[..0] == [] && Before(next, s, steps, 0 + 1) == Before(next, s', rest, 0) == s';
    if good(s) && Always(next, good, s', rest) {
      forall i | 0 <= i <= |steps| ensures good(Before(next, s, steps, i)) {
        if i > 0 { assert good(Before(next, s', rest, i - 1)); }
      }
    }
    if Always(next, good, s, steps) {
      assert good(Before(next, s, steps, 0)) && good(Before(next, s, steps, 1));
      forall i | 0 <= i <= |rest| ensures good(Before(next, s', rest, i)) {
        assert good(Before(next, s, steps, i + 1));
      }
    }
  }

  lemma AlwaysAtEnd<S, T>(next: (S, T) -> S, good: S -> bool, s: S, steps: seq<T>)
    requires Always(next, good, s, steps)
    ensures good(After(next, s, steps))
  {
    assert steps[..|steps|] == steps;
    assert good(Before(next, s, steps, |steps|));
  }

  /** If in good states a step leads to a good state exactly when it is not bad, and an invariant holds
      throughout, then a run stays good if and only if it never takes a bad step. */
  lemma {:induction false} AlwaysUnlessBad<S(!new), T(!new)>(enabled: (S, T) -> bool, next: (S, T) -> S,
                                                             inv: S -> bool, allowed: T -> bool,
                                                             good: S -> bool, bad: (S, T) -> bool,
                                                             s: S, steps: seq<T>)
    requires forall x, step :: inv(x) && allowed(step) && enabled(x, step) ==> inv(next(x, step))
    requires forall x, step :: inv(x) && allowed(step) && enabled(x, step) && good(x) ==>
      (good(next(x, step)) <==> !bad(x, step))
    requires inv(s) && good(s) && IsRun(enabled, next, s, steps)
    requires forall i :: 0 <= i < |steps| ==> allowed(steps[i])
    ensures Always(next, good, s, steps) <==> Never(next, bad, s, steps)
    decreases |steps|
  {
    if steps != [] {
      var s', rest := next(s, steps[0]), steps[1..];
      NeverTail(next, bad, s, steps);
      AlwaysTail(next, good, s, steps);
      assert allowed(steps[0]);
      assert forall i :: 0 <= i < |rest| ==> rest[i] == steps[i + 1];
      if good(s') {
        AlwaysUnlessBad(enabled, next, inv, allowed, good, bad, s', rest);
      }
    }
  }
}
