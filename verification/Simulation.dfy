/** Runs of deterministic machines, and how one machine follows another through whole runs. */
module Simulation {
  import opened Instructions

  /** The state after `n` steps; None when the run stops before. */
  function Run<S>(step: S -> Option<S>, s: S, n: nat): Option<S>
    decreases n
  {
    if n == 0 then Some(s)
    else if step(s).None? then None
    else Run(step, step(s).value, n - 1)
  }

  lemma {:induction false} RunNext<S>(step: S -> Option<S>, s: S, n: nat)
    ensures Run(step, s, 0) == Some(s)
    ensures n > 0 ==> Run(step, s, n) == if step(s).None? then None else Run(step, step(s).value, n - 1)
  {
  }

  lemma {:induction false} OneStep<S>(step: S -> Option<S>, s: S)
    ensures Run(step, s, 1) == step(s)
  {
    if step(s).Some? {
      assert Run(step, step(s).value, 0) == Some(step(s).value);
    }
  }

  lemma {:induction false} RunAdd<S>(step: S -> Option<S>, s: S, m: nat, n: nat)
    requires Run(step, s, m).Some?
    ensures Run(step, s, m + n) == Run(step, Run(step, s, m).value, n)
    decreases m
  {
    if m > 0 {
      RunAdd(step, step(s).value, m - 1, n);
    }
  }

  /** Related states stay related when the followed machine makes a step and the follower one too. */
  ghost predicate FollowsStep<A(!new), B(!new)>(a: A -> Option<A>, b: B -> Option<B>, rel: (A, B) -> bool) {
    forall x, y :: rel(x, y) && a(x).Some? ==> b(y).Some? && rel(a(x).value, b(y).value)
  }

  lemma {:induction false} FollowsRun<A(!new), B(!new)>(
      a: A -> Option<A>, b: B -> Option<B>, rel: (A, B) -> bool, x: A, y: B, n: nat)
    requires FollowsStep(a, b, rel) && rel(x, y) && Run(a, x, n).Some?
    ensures Run(b, y, n).Some? && rel(Run(a, x, n).value, Run(b, y, n).value)
    decreases n
  {
    if n > 0 {
      FollowsRun(a, b, rel, a(x).value, b(y).value, n - 1);
    }
  }

  /** The follower answers a step with as many steps of its own as `count` says, two at most; none only if that
      lowers the rank, which is at most 2. */
  ghost predicate FollowsCounting<A(!new), B(!new)>(
    a: A -> Option<A>, b: B -> Option<B>, rel: (A, B) -> bool, count: (A, B) -> nat, rank: (A, B) -> nat)
  {
    forall x, y :: rel(x, y) && a(x).Some? ==>
      var y' := Run(b, y, count(x, y));
      && y'.Some? && rel(a(x).value, y'.value)
      && count(x, y) <= 2 && rank(a(x).value, y'.value) <= 2
      && (count(x, y) == 0 ==> rank(a(x).value, y'.value) < rank(x, y))
  }

  lemma {:induction false} FollowsRunCounting<A(!new), B(!new)>(
      a: A -> Option<A>, b: B -> Option<B>, rel: (A, B) -> bool, count: (A, B) -> nat, rank: (A, B) -> nat,
      x: A, y: B, n: nat) returns (m: nat)
    requires FollowsCounting(a, b, rel, count, rank) && rel(x, y) && Run(a, x, n).Some?
    ensures m <= 2 * n && n <= 3 * m + rank(x, y)
    ensures (forall x, y :: count(x, y) > 0) ==> n <= m
    ensures (forall x, y :: count(x, y) <= 1) ==> m <= n
    ensures Run(b, y, m).Some? && rel(Run(a, x, n).value, Run(b, y, m).value)
    decreases n
  {
    if n == 0 {
      m := 0;
    } else {
      var k := count(x, y);
      m := FollowsRunCounting(a, b, rel, count, rank, a(x).value, Run(b, y, k).value, n - 1);
      RunAdd(b, y, k, m);
      m := m + k;
    }
  }
}
